/**
 The slab allocator on its lists.

 A slab is named by the frame of its first page.  `queues` holds the full,
 partial and empty list of every cache, `pageSlab` the slab pointer of every
 page, and a chunk is its physical byte address.
 */
module SlabSpec {
  import opened Collections
  import opened Bits
  import opened BuddySpec

  const SLAB_COUNT: nat := 12
  const PAGE: nat := 4096

  const FULL: nat := 0
  const PARTIAL: nat := 1
  const EMPTY: nat := 2

  function ClassSize(c: nat): (s: nat)
    requires c < SLAB_COUNT
    ensures s > 0
  {
    [8, 16, 32, 64, 128, 192, 256, 512, 1024, 2048, 4096, 8192][c]
  }

  function ClassOrder(c: nat): (o: nat)
    requires c < SLAB_COUNT
    ensures o <= 3
  {
    [0, 0, 0, 0, 0, 1, 1, 1, 1, 2, 2, 3][c]
  }

  /** `SLAB_SIZE`. */
  function SlabBytes(c: nat): nat
    requires c < SLAB_COUNT
  {
    PAGE * Pow2(ClassOrder(c))
  }

  /** `N_OBJECTS`. */
  function Objects(c: nat): nat
    requires c < SLAB_COUNT
  {
    SlabBytes(c) / ClassSize(c)
  }

  /** `kmalloc_idx`. */
  function SizeClass(size: nat): nat {
    if size <= 8 then 0
    else if size <= 16 then 1
    else if size <= 32 then 2
    else if size <= 64 then 3
    else if size <= 128 then 4
    else if size <= 192 then 5
    else if size <= 256 then 6
    else if size <= 512 then 7
    else if size <= 1024 then 8
    else if size <= 2048 then 9
    else if size <= 4096 then 10
    else if size <= 8192 then 11
    else size
  }

  datatype Slab = Slab(cache: nat, freeObjects: nat, freelist: seq<nat>)

  datatype Heap = Heap(lists: Lists, slabs: map<nat, Slab>, queues: seq<seq<nat>>, pageSlab: map<nat, nat>)

  function Queue(c: nat, kind: nat): nat {
    3 * c + kind
  }

  /** Which list `kmem_insert_slab` chooses; the test for empty comes first. */
  function Kind(s: Slab): nat
    requires s.cache < SLAB_COUNT
  {
    if s.freeObjects == Objects(s.cache) then EMPTY else if s.freeObjects == 0 then FULL else PARTIAL
  }

  /** Chunk `i` of the slab whose pages start at frame `base`. */
  function ChunkAt(c: nat, base: nat, i: nat): nat
    requires c < SLAB_COUNT
  {
    base * PAGE + ClassSize(c) * i
  }

  /** The freelist of a new slab: chunks pushed in address order, so the last one is first. */
  function NewFreelist(c: nat, base: nat, n: nat): seq<nat>
    requires c < SLAB_COUNT
  {
    if n == 0 then [] else [ChunkAt(c, base, n - 1)] + NewFreelist(c, base, n - 1)
  }

  function PutSlab(h: Heap, id: nat, s: Slab): (h': Heap)
    requires |h.queues| == 3 * SLAB_COUNT && s.cache < SLAB_COUNT
    ensures |h'.queues| == 3 * SLAB_COUNT
  {
    var q := Queue(s.cache, Kind(s));
    h.(slabs := h.slabs[id := s], queues := h.queues[q := [id] + h.queues[q]])
  }

  /** `kmem_cache_alloc_partial` and `kmem_cache_alloc_empty`. */
  function TakeChunk(h: Heap, c: nat, kind: nat): (Heap, nat)
    requires |h.queues| == 3 * SLAB_COUNT && c < SLAB_COUNT && kind <= EMPTY && h.queues[Queue(c, kind)] != []
    requires var id := h.queues[Queue(c, kind)][0];
      id in h.slabs && h.slabs[id].cache < SLAB_COUNT && h.slabs[id].freelist != [] && h.slabs[id].freeObjects > 0
  {
    var q := Queue(c, kind);
    var id := h.queues[q][0];
    var s := h.slabs[id];
    (PutSlab(h.(queues := h.queues[q := h.queues[q][1..]]), id, s.(freeObjects := s.freeObjects - 1, freelist := s.freelist[1..])),
     s.freelist[0])
  }

  /** `new_page[i].slab = new_slab` for the first `n` pages of the block. */
  function MarkPages(m: map<nat, nat>, base: nat, n: nat): map<nat, nat> {
    if n == 0 then m else MarkPages(m, base, n - 1)[base + n - 1 := base]
  }

  /** `kmem_cache_new_empty`, with a descriptor always available; `None` when the buddy has no block. */
  function NewSlab(h: Heap, c: nat): Option<Heap>
    requires |h.queues| == 3 * SLAB_COUNT && c < SLAB_COUNT
  {
    var (l, p) := AllocSpec(h.lists, ClassOrder(c));
    match p
    case None => None
    case Some(base) =>
      var s := Slab(c, Objects(c), NewFreelist(c, base, Objects(c)));
      Some(PutSlab(h.(lists := l, pageSlab := MarkPages(h.pageSlab, base, Pow2(ClassOrder(c)))), base, s))
  }

  /* ---- what the heap means ---- */

  ghost predicate IsChunk(c: nat, base: nat, a: nat)
    requires c < SLAB_COUNT
  {
    IsChunkBelow(c, base, Objects(c), a)
  }

  /** `a` is one of the first `n` chunks of the slab. */
  ghost predicate IsChunkBelow(c: nat, base: nat, n: nat, a: nat)
    requires c < SLAB_COUNT
  {
    exists i: nat :: i < n && a == ChunkAt(c, base, i)
  }

  /** One slab: its freelist holds distinct chunks of its own block, which the buddy has handed out. */
  ghost predicate SlabOk(h: Heap, id: nat) {
    && id in h.slabs
    && var s := h.slabs[id];
    && s.cache < SLAB_COUNT
    && s.freeObjects == |s.freelist| && Distinct(s.freelist) && |s.freelist| <= Objects(s.cache)
    && (forall a :: a in s.freelist ==> IsChunk(s.cache, id, a))
    && Aligned(id, ClassOrder(s.cache)) && Taken(h.lists, id, ClassOrder(s.cache))
    && (forall q: nat :: InBlock(q, id, ClassOrder(s.cache)) ==> q in h.pageSlab && h.pageSlab[q] == id)
  }

  /** Every slab is on exactly the list that matches its free count. */
  ghost predicate Classified(h: Heap) {
    && |h.queues| == 3 * SLAB_COUNT
    && (forall q :: 0 <= q < 3 * SLAB_COUNT ==> Distinct(h.queues[q]))
    && (forall q, id {:trigger id in h.queues[q]} :: 0 <= q < 3 * SLAB_COUNT ==>
          (id in h.queues[q] <==> id in h.slabs && h.slabs[id].cache < SLAB_COUNT && q == Queue(h.slabs[id].cache, Kind(h.slabs[id]))))
  }

  ghost predicate SlabInv(h: Heap) {
    && Inv(h.lists)
    && Classified(h)
    && (forall id :: id in h.slabs ==> SlabOk(h, id))
  }

  /* ---- the operations ---- */

  lemma HeadReady(h: Heap, c: nat, kind: nat)
    requires SlabInv(h) && c < SLAB_COUNT && (kind == PARTIAL || kind == EMPTY) && h.queues[Queue(c, kind)] != []
    ensures var id := h.queues[Queue(c, kind)][0];
      && id in h.slabs && h.slabs[id].cache == c && Kind(h.slabs[id]) == kind && SlabOk(h, id)
      && h.slabs[id].freelist != [] && h.slabs[id].freeObjects > 0
  {
    var id := h.queues[Queue(c, kind)][0];
    assert id in h.queues[Queue(c, kind)];
    ManyObjects(c);
  }

  lemma ManyObjects(c: nat)
    requires c < SLAB_COUNT
    ensures Objects(c) >= 4
  {
    assert Pow2(0) == 1 && Pow2(1) == 2 && Pow2(2) == 4 && Pow2(3) == 8;
  }

  /** `kmem_cache_alloc_nolock`. */
  ghost function CacheAlloc(h: Heap, c: nat): Option<(Heap, nat)>
    requires SlabInv(h) && c < SLAB_COUNT
  {
    if h.queues[Queue(c, PARTIAL)] != [] then
      HeadReady(h, c, PARTIAL);
      Some(TakeChunk(h, c, PARTIAL))
    else if h.queues[Queue(c, EMPTY)] != [] then
      HeadReady(h, c, EMPTY);
      Some(TakeChunk(h, c, EMPTY))
    else
      match NewSlab(h, c)
      case None => None
      case Some(h1) =>
        NewSlabReady(h, c);
        Some(TakeChunk(h1, c, EMPTY))
  }

  lemma NewSlabReady(h: Heap, c: nat)
    requires |h.queues| == 3 * SLAB_COUNT && c < SLAB_COUNT && NewSlab(h, c).Some?
    ensures var h1 := NewSlab(h, c).value; var base := AllocSpec(h.lists, ClassOrder(c)).1.value;
      && h1.queues[Queue(c, EMPTY)] == [base] + h.queues[Queue(c, EMPTY)]
      && h1.slabs == h.slabs[base := Slab(c, Objects(c), NewFreelist(c, base, Objects(c)))]
      && Objects(c) > 0 && NewFreelist(c, base, Objects(c)) != []
  {
    ManyObjects(c);
  }

  /** `kmem_cache_free_nolock`, for the slab `id` found through the chunk's page. */
  function CacheFree(h: Heap, id: nat, chunk: nat): Heap
    requires |h.queues| == 3 * SLAB_COUNT && id in h.slabs && h.slabs[id].cache < SLAB_COUNT
  {
    var s := h.slabs[id];
    var q := Queue(s.cache, if s.freeObjects == 0 then FULL else PARTIAL);
    PutSlab(h.(queues := h.queues[q := Remove(h.queues[q], id)]), id,
            s.(freeObjects := s.freeObjects + 1, freelist := [chunk] + s.freelist))
  }

  /** `kmalloc`. */
  ghost function Kmalloc(h: Heap, size: nat): Option<(Heap, nat)>
    requires SlabInv(h)
  {
    if size > ClassSize(SLAB_COUNT - 1) then None else CacheAlloc(h, SizeClass(size))
  }

  /** `kfree`: the slab is the one its page points to. */
  function Kfree(h: Heap, chunk: nat): Heap
    requires |h.queues| == 3 * SLAB_COUNT && chunk / PAGE in h.pageSlab
    requires var id := h.pageSlab[chunk / PAGE]; id in h.slabs && h.slabs[id].cache < SLAB_COUNT
  {
    CacheFree(h, h.pageSlab[chunk / PAGE], chunk)
  }

  /* ---- live chunks ---- */

  /** Chunk `a` of slab `id` is handed out. */
  ghost predicate Live(h: Heap, id: nat, a: nat) {
    id in h.slabs && h.slabs[id].cache < SLAB_COUNT && IsChunk(h.slabs[id].cache, id, a) && a !in h.slabs[id].freelist
  }

  ghost predicate LiveChunk(h: Heap, a: nat) {
    exists id :: Live(h, id, a)
  }

  ghost function LiveSet(h: Heap): iset<nat> {
    iset a: nat | LiveChunk(h, a)
  }

  lemma DivMul(x: nat, y: nat, i: nat)
    requires y > 0 && i < x / y
    ensures y * i + y <= x
  {
    var q := x / y;
    assert y * q <= x;
    MulMono(y, i + 1, q);
    assert y * (i + 1) == y * i + y;
  }

  lemma MulMono(y: nat, a: nat, b: nat)
    requires a <= b
    ensures y * a <= y * b
  {
  }

  /** A chunk lies inside its slab's pages, even where it straddles a page boundary. */
  lemma ChunkInside(c: nat, base: nat, a: nat, b: nat)
    requires c < SLAB_COUNT && IsChunk(c, base, a) && a <= b < a + ClassSize(c)
    ensures InBlock(b / PAGE, base, ClassOrder(c))
  {
    var i: nat :| i < Objects(c) && a == ChunkAt(c, base, i);
    DivMul(SlabBytes(c), ClassSize(c), i);
    assert base * PAGE <= b < base * PAGE + PAGE * Pow2(ClassOrder(c));
  }

  /** Chunks of one slab do not overlap. */
  lemma ChunksApart(c: nat, base: nat, i: nat, j: nat)
    requires c < SLAB_COUNT && i < j
    ensures ChunkAt(c, base, i) + ClassSize(c) <= ChunkAt(c, base, j)
  {
    MulMono(ClassSize(c), i + 1, j);
    assert ClassSize(c) * (i + 1) == ClassSize(c) * i + ClassSize(c);
  }

  /** The page of every byte of a chunk leads back to the slab it was carved from. */
  lemma PageFindsSlab(h: Heap, id: nat, a: nat, b: nat)
    requires SlabInv(h) && id in h.slabs && IsChunk(h.slabs[id].cache, id, a)
    requires a <= b < a + ClassSize(h.slabs[id].cache)
    ensures b / PAGE in h.pageSlab && h.pageSlab[b / PAGE] == id
  {
    assert SlabOk(h, id);
    ChunkInside(h.slabs[id].cache, id, a, b);
  }

  /** Whole-heap safety: live chunks of any caches share no byte. */
  lemma LiveChunksDisjoint(h: Heap, id: nat, a: nat, id': nat, a': nat, b: nat)
    requires SlabInv(h) && Live(h, id, a) && Live(h, id', a')
    requires a <= b < a + ClassSize(h.slabs[id].cache) && a' <= b < a' + ClassSize(h.slabs[id'].cache)
    ensures id == id' && a == a'
  {
    PageFindsSlab(h, id, a, b);
    PageFindsSlab(h, id', a', b);
    var c := h.slabs[id].cache;
    var i: nat :| i < Objects(c) && a == ChunkAt(c, id, i);
    var j: nat :| j < Objects(c) && a' == ChunkAt(c, id, j);
    if i < j {
      ChunksApart(c, id, i, j);
    } else if j < i {
      ChunksApart(c, id, j, i);
    }
  }
}
