/**
 The slab heap over single calls and whole runs: classification, safety of live
 chunks, exact round trips and the growth bound.
 */
module SlabTheorems {
  import opened Collections
  import opened Bits
  import opened BuddySpec
  import opened BuddyTheorems
  import opened SlabSpec

  /* ---- the classes and the lists, in numbers ---- */

  /** The twelve caches: chunk size, bytes of a slab, chunks of a slab. */
  lemma ClassTable()
    ensures forall c: nat :: c < SLAB_COUNT ==>
      && ClassSize(c) == [8, 16, 32, 64, 128, 192, 256, 512, 1024, 2048, 4096, 8192][c]
      && SlabBytes(c) == [4096, 4096, 4096, 4096, 4096, 8192, 8192, 8192, 8192, 16384, 16384, 32768][c]
      && Objects(c) == [512, 256, 128, 64, 32, 42, 32, 16, 8, 8, 4, 4][c]
  {
    assert Pow2(0) == 1 && Pow2(1) == 2 && Pow2(2) == 4 && Pow2(3) == 8;
  }

  ghost predicate PartlyFree(h: Heap, c: nat, id: nat)
    requires c < SLAB_COUNT
  {
    id in h.slabs && h.slabs[id].cache == c && 0 < |h.slabs[id].freelist| < Objects(c)
  }

  ghost predicate WhollyFree(h: Heap, c: nat, id: nat)
    requires c < SLAB_COUNT
  {
    id in h.slabs && h.slabs[id].cache == c && |h.slabs[id].freelist| == Objects(c)
  }

  ghost predicate WhollyTaken(h: Heap, c: nat, id: nat)
    requires c < SLAB_COUNT
  {
    id in h.slabs && h.slabs[id].cache == c && h.slabs[id].freelist == []
  }

  /** The three lists of a cache hold exactly its slabs with no free chunk, with some, and with nothing but free chunks. */
  lemma ListsByFreeChunks(h: Heap, c: nat, id: nat)
    requires SlabInv(h) && c < SLAB_COUNT
    ensures |h.queues| == 3 * SLAB_COUNT
    ensures id in h.queues[Queue(c, FULL)] <==> WhollyTaken(h, c, id)
    ensures id in h.queues[Queue(c, PARTIAL)] <==> PartlyFree(h, c, id)
    ensures id in h.queues[Queue(c, EMPTY)] <==> WhollyFree(h, c, id)
  {
    hide Inv, Taken;
    ManyObjects(c);
    if id in h.slabs {
      assert SlabOk(h, id);
    }
  }

  /* ---- moving a slab between lists ---- */

  lemma MoveKeepsClassified(h: Heap, id: nat, s: Slab, rest: seq<nat>)
    requires Classified(h) && id in h.slabs && h.slabs[id].cache < SLAB_COUNT && s.cache == h.slabs[id].cache
    requires Distinct(rest)
    requires forall x :: x in rest <==> x in h.queues[Queue(s.cache, Kind(h.slabs[id]))] && x != id
    ensures Classified(PutSlab(h.(queues := h.queues[Queue(s.cache, Kind(h.slabs[id])) := rest]), id, s))
  {
    var q0, q1 := Queue(s.cache, Kind(h.slabs[id])), Queue(s.cache, Kind(s));
    var h' := PutSlab(h.(queues := h.queues[q0 := rest]), id, s);
    assert id in h.queues[q0];
    forall q, x | 0 <= q < 3 * SLAB_COUNT
      ensures x in h'.queues[q] <==> x in h'.slabs && h'.slabs[x].cache < SLAB_COUNT && q == Queue(h'.slabs[x].cache, Kind(h'.slabs[x]))
    {
      assert x in h'.queues[q] <==> (x in (if q == q0 then rest else h.queues[q]) || (q == q1 && x == id));
    }
    forall q | 0 <= q < 3 * SLAB_COUNT ensures Distinct(h'.queues[q]) {
      var before := if q == q0 then rest else h.queues[q];
      assert id !in before;
      assert h'.queues[q] == if q == q1 then [id] + before else before;
    }
  }

  /** Slab `id` with its new free list is as good as the old one, and the others are untouched. */
  lemma MoveKeepsSlabs(h: Heap, h': Heap, id: nat, s: Slab)
    requires SlabInv(h) && id in h.slabs && s.cache == h.slabs[id].cache
    requires h'.lists == h.lists && h'.pageSlab == h.pageSlab && h'.slabs == h.slabs[id := s]
    requires s.freeObjects == |s.freelist| && Distinct(s.freelist) && |s.freelist| <= Objects(s.cache)
    requires forall a :: a in s.freelist ==> IsChunk(s.cache, id, a)
    ensures forall x :: x in h'.slabs ==> SlabOk(h', x)
  {
    forall x | x in h'.slabs ensures SlabOk(h', x) {
      assert SlabOk(h, x);
    }
  }

  lemma SlabFacts(h: Heap, id: nat)
    requires SlabInv(h) && id in h.slabs
    ensures var s := h.slabs[id];
      && s.cache < SLAB_COUNT && s.freeObjects == |s.freelist| && Distinct(s.freelist) && |s.freelist| <= Objects(s.cache)
      && (forall a :: a in s.freelist ==> IsChunk(s.cache, id, a))
  {
    assert SlabOk(h, id);
  }

  lemma MoveKeepsInv(h: Heap, id: nat, s: Slab, rest: seq<nat>)
    requires SlabInv(h) && id in h.slabs && h.slabs[id].cache < SLAB_COUNT && s.cache == h.slabs[id].cache
    requires Distinct(rest)
    requires forall x :: x in rest <==> x in h.queues[Queue(s.cache, Kind(h.slabs[id]))] && x != id
    requires s.freeObjects == |s.freelist| && Distinct(s.freelist) && |s.freelist| <= Objects(s.cache)
    requires forall a :: a in s.freelist ==> IsChunk(s.cache, id, a)
    ensures SlabInv(PutSlab(h.(queues := h.queues[Queue(s.cache, Kind(h.slabs[id])) := rest]), id, s))
  {
    hide Inv, SlabOk, IsChunk, Distinct;
    MoveKeepsClassified(h, id, s, rest);
    MoveKeepsSlabs(h, PutSlab(h.(queues := h.queues[Queue(s.cache, Kind(h.slabs[id])) := rest]), id, s), id, s);
  }

  lemma QueueHead(h: Heap, q: nat)
    requires Classified(h) && q < 3 * SLAB_COUNT && h.queues[q] != []
    ensures Distinct(h.queues[q][1..]) && forall x :: x in h.queues[q][1..] <==> x in h.queues[q] && x != h.queues[q][0]
  {
    assert h.queues[q] == [h.queues[q][0]] + h.queues[q][1..];
  }

  /** Taking a chunk: it was free, it is live now, and nothing else changed hands. */
  lemma TakeChunkEffect(h: Heap, c: nat, kind: nat)
    requires SlabInv(h) && c < SLAB_COUNT && (kind == PARTIAL || kind == EMPTY) && h.queues[Queue(c, kind)] != []
    ensures var id := h.queues[Queue(c, kind)][0];
      id in h.slabs && h.slabs[id].cache == c && h.slabs[id].freelist != [] && h.slabs[id].freeObjects > 0
    ensures var (h', chunk) := TakeChunk(h, c, kind); var id := h.queues[Queue(c, kind)][0];
      && SlabInv(h') && id in h'.slabs && h'.slabs.Keys == h.slabs.Keys
      && h'.slabs[id].cache == c && h'.pageSlab == h.pageSlab && h'.lists == h.lists
      && !Live(h, id, chunk) && IsChunk(c, id, chunk)
      && (forall x: nat, a: nat :: Live(h', x, a) <==> Live(h, x, a) || (x == id && a == chunk))
  {
    hide Inv, IsChunk, SlabOk, Kind;
    HeadReady(h, c, kind);
    var q := Queue(c, kind);
    QueueHead(h, q);
    var id := h.queues[q][0];
    SlabFacts(h, id);
    var s0 := h.slabs[id];
    var s := s0.(freeObjects := s0.freeObjects - 1, freelist := s0.freelist[1..]);
    assert s0.freelist == [s0.freelist[0]] + s.freelist;
    MoveKeepsInv(h, id, s, h.queues[q][1..]);
  }

  /** Returning a live chunk: exactly it stops being live. */
  lemma CacheFreeEffect(h: Heap, id: nat, chunk: nat)
    requires SlabInv(h) && Live(h, id, chunk)
    ensures var h' := CacheFree(h, id, chunk);
      && SlabInv(h') && h'.slabs.Keys == h.slabs.Keys
      && (forall x: nat, a: nat :: Live(h', x, a) <==> Live(h, x, a) && !(x == id && a == chunk))
  {
    hide Inv, IsChunk, SlabOk, Kind;
    var s0 := h.slabs[id];
    var s := s0.(freeObjects := s0.freeObjects + 1, freelist := [chunk] + s0.freelist);
    SlabFacts(h, id);
    SomeTaken(h, id, chunk);
    var q := Queue(s0.cache, Kind(s0));
    RemoveFacts(h.queues[q], id);
    MoveKeepsInv(h, id, s, Remove(h.queues[q], id));
  }

  /** A slab with a live chunk is not empty: its list is the full one or the partial one. */
  lemma SomeTaken(h: Heap, id: nat, chunk: nat)
    requires SlabInv(h) && Live(h, id, chunk)
    ensures h.slabs[id].freeObjects < Objects(h.slabs[id].cache)
    ensures Kind(h.slabs[id]) == if h.slabs[id].freeObjects == 0 then FULL else PARTIAL
  {
    assert SlabOk(h, id);
    ManyObjects(h.slabs[id].cache);
    var s := h.slabs[id];
    if |s.freelist| == Objects(s.cache) {
      AllFreeMeansEveryChunk(s.cache, id, s.freelist, chunk);
      assert false;
    }
  }

  /** `n` distinct chunks of `n` are all of them. */
  lemma AllFreeMeansEveryChunk(c: nat, base: nat, l: seq<nat>, chunk: nat)
    requires c < SLAB_COUNT && Distinct(l) && |l| == Objects(c) && IsChunk(c, base, chunk)
    requires forall a :: a in l ==> IsChunk(c, base, a)
    ensures chunk in l
  {
    if chunk !in l {
      Pigeons(c, base, [chunk] + l, Objects(c));
      assert false;
    }
  }

  /** Distinct chunks among the first `n` are at most `n`. */
  lemma {:induction false} Pigeons(c: nat, base: nat, l: seq<nat>, n: nat)
    requires c < SLAB_COUNT && Distinct(l)
    requires forall a :: a in l ==> IsChunkBelow(c, base, n, a)
    ensures |l| <= n
    decreases n
  {
    if l == [] {
    } else {
      var a := l[0];
      assert a in l;
      var j: nat :| j < n && a == ChunkAt(c, base, j);
      var last := ChunkAt(c, base, n - 1);
      RemoveFacts(l, last);
      forall x | x in Remove(l, last) ensures IsChunkBelow(c, base, n - 1, x) {
        var i: nat :| i < n && x == ChunkAt(c, base, i);
        assert i < n - 1;
      }
      Pigeons(c, base, Remove(l, last), n - 1);
    }
  }

  /* ---- a new slab ---- */

  lemma {:induction false} NewFreelistFacts(c: nat, base: nat, n: nat)
    requires c < SLAB_COUNT
    ensures |NewFreelist(c, base, n)| == n && Distinct(NewFreelist(c, base, n))
    ensures forall a :: a in NewFreelist(c, base, n) <==> IsChunkBelow(c, base, n, a)
  {
    if n == 0 {
    } else {
      NewFreelistFacts(c, base, n - 1);
      var rest, last := NewFreelist(c, base, n - 1), ChunkAt(c, base, n - 1);
      forall a ensures a in NewFreelist(c, base, n) <==> IsChunkBelow(c, base, n, a) {
        assert a in NewFreelist(c, base, n) <==> a == last || a in rest;
        if a in rest {
          var i: nat :| i < n - 1 && a == ChunkAt(c, base, i);
          assert i < n && a == ChunkAt(c, base, i);
        } else if a == last {
          assert n - 1 < n && a == ChunkAt(c, base, n - 1);
        }
      }
      assert last !in rest by {
        if last in rest {
          var i: nat :| i < n - 1 && last == ChunkAt(c, base, i);
          ChunksApart(c, base, i, n - 1);
        }
      }
    }
  }

  /** A new slab hands its chunks out from the last address down. */
  lemma {:induction false} NewFreelistAt(c: nat, base: nat, n: nat, i: nat)
    requires c < SLAB_COUNT && i < n
    ensures |NewFreelist(c, base, n)| == n && NewFreelist(c, base, n)[i] == ChunkAt(c, base, n - 1 - i)
  {
    NewFreelistFacts(c, base, n);
    if i > 0 {
      NewFreelistAt(c, base, n - 1, i - 1);
    }
  }

  lemma {:induction false} MarkPagesFacts(m: map<nat, nat>, base: nat, n: nat)
    ensures forall q: nat :: q in MarkPages(m, base, n) <==> q in m || base <= q < base + n
    ensures forall q: nat :: q in MarkPages(m, base, n) ==> MarkPages(m, base, n)[q] == if base <= q < base + n then base else m[q]
  {
    if n == 0 {
    } else {
      MarkPagesFacts(m, base, n - 1);
    }
  }

  lemma MarkBlock(m: map<nat, nat>, base: nat, o: nat)
    ensures var m' := MarkPages(m, base, Pow2(o));
      && (forall q: nat :: InBlock(q, base, o) ==> q in m' && m'[q] == base)
      && (forall q: nat :: q in m && !InBlock(q, base, o) ==> q in m' && m'[q] == m[q])
  {
    hide MarkPages;
    MarkPagesFacts(m, base, Pow2(o));
  }

  lemma NewSlabIsNew(h: Heap, base: nat, o: nat)
    requires SlabInv(h) && o <= MAX_ORDER && AllocSpec(h.lists, o).1 == Some(base)
    ensures base !in h.slabs
    ensures forall id :: id in h.slabs ==> Taken(AllocSpec(h.lists, o).0, id, ClassOrder(h.slabs[id].cache))
    ensures forall id, q: nat :: id in h.slabs && InBlock(q, id, ClassOrder(h.slabs[id].cache)) ==> !InBlock(q, base, o)
    ensures Inv(AllocSpec(h.lists, o).0) && Aligned(base, o) && Taken(AllocSpec(h.lists, o).0, base, o)
  {
    hide Inv, AllocSpec, FreePage;
    AllocKeepsInv(h.lists, o);
    var l := AllocSpec(h.lists, o).0;
    forall id | id in h.slabs
      ensures id != base && Taken(l, id, ClassOrder(h.slabs[id].cache))
      ensures forall q: nat :: InBlock(q, id, ClassOrder(h.slabs[id].cache)) ==> !InBlock(q, base, o)
    {
      assert SlabOk(h, id);
      var o' := ClassOrder(h.slabs[id].cache);
      forall q: nat | InBlock(q, id, o') ensures !FreePage(l, q) && !InBlock(q, base, o) {
        assert q !in FreeSet(h.lists);
        assert q in FreeSet(l) ==> q in FreeSet(h.lists);
        assert q in Block(base, o) ==> q in FreeSet(h.lists);
      }
      assert InBlock(id, id, o') && InBlock(base, base, o);
    }
  }

  /** A new slab joins the empty list, its pages point to it, and no chunk changes hands. */
  lemma NewSlabEffect(h: Heap, c: nat)
    requires SlabInv(h) && c < SLAB_COUNT && NewSlab(h, c).Some?
    ensures var h1 := NewSlab(h, c).value; var base := AllocSpec(h.lists, ClassOrder(c)).1.value;
      && SlabInv(h1) && base !in h.slabs
      && h1.slabs == h.slabs[base := Slab(c, Objects(c), NewFreelist(c, base, Objects(c)))]
      && h1.queues == h.queues[Queue(c, EMPTY) := [base] + h.queues[Queue(c, EMPTY)]]
      && (forall x: nat, a: nat :: Live(h1, x, a) <==> Live(h, x, a))
  {
    hide Inv, AllocSpec, SlabOk, NewFreelist, MarkPages, InBlock, Taken;
    var o := ClassOrder(c);
    var base := AllocSpec(h.lists, o).1.value;
    var s := Slab(c, Objects(c), NewFreelist(c, base, Objects(c)));
    var h1 := NewSlab(h, c).value;
    NewSlabIsNew(h, base, o);
    NewFreelistFacts(c, base, Objects(c));
    forall x | x in h1.slabs ensures SlabOk(h1, x) {
      if x == base {
        NewSlabOk(h, c);
      } else {
        OldSlabOk(h, c, x);
      }
    }
    NewSlabClassified(h, h1, c, base, s);
  }

  lemma NewSlabOk(h: Heap, c: nat)
    requires SlabInv(h) && c < SLAB_COUNT && NewSlab(h, c).Some?
    ensures SlabOk(NewSlab(h, c).value, AllocSpec(h.lists, ClassOrder(c)).1.value)
  {
    hide Inv, AllocSpec, FreePage, Taken, InBlock, MarkPages, Kind, NewFreelist;
    var o := ClassOrder(c);
    var base := AllocSpec(h.lists, o).1.value;
    NewSlabIsNew(h, base, o);
    NewFreelistFacts(c, base, Objects(c));
    MarkBlock(h.pageSlab, base, o);
  }

  lemma OldSlabOk(h: Heap, c: nat, x: nat)
    requires SlabInv(h) && c < SLAB_COUNT && NewSlab(h, c).Some? && x in h.slabs
    ensures SlabOk(NewSlab(h, c).value, x)
  {
    hide Inv, AllocSpec, FreePage, Taken, IsChunk, InBlock, MarkPages, Kind;
    var o := ClassOrder(c);
    var base := AllocSpec(h.lists, o).1.value;
    assert SlabOk(h, x);
    NewSlabIsNew(h, base, o);
    MarkBlock(h.pageSlab, base, o);
  }

  lemma NewSlabClassified(h: Heap, h1: Heap, c: nat, base: nat, s: Slab)
    requires Classified(h) && base !in h.slabs && c < SLAB_COUNT && s.cache == c && Kind(s) == EMPTY
    requires h1.slabs == h.slabs[base := s]
    requires h1.queues == h.queues[Queue(c, EMPTY) := [base] + h.queues[Queue(c, EMPTY)]]
    ensures Classified(h1)
  {
    forall q | 0 <= q < 3 * SLAB_COUNT ensures base !in h.queues[q] && Distinct(h1.queues[q]) {
    }
  }
}
