/**
 The address-ordered range list of vmalloc: first fit, split from the back,
 never merged.
 */
module VmRanges {
  import opened Collections

  const PAGE_SIZE: nat := 4096
  const VMALLOC_START: nat := 0xffff_d000_0000_0000
  const VMALLOC_END: nat := 0xffff_e000_0000_0000

  datatype Range = Range(addr: nat, size: nat, inUse: bool)

  /** `vmalloc_map_range` on a non-empty page-multiple size. */
  function FirstFit(rs: seq<Range>, size: nat): (seq<Range>, Option<nat>) {
    if rs == [] then (rs, None)
    else
      var r := rs[0];
      if !r.inUse && r.size == size then ([r.(inUse := true)] + rs[1..], Some(r.addr))
      else if !r.inUse && r.size > size then
        var at := r.addr + r.size - size;
        ([r.(size := r.size - size), Range(at, size, true)] + rs[1..], Some(at))
      else
        var (rest, res) := FirstFit(rs[1..], size);
        ([r] + rest, res)
  }

  function MapRange(rs: seq<Range>, size: nat): (seq<Range>, Option<nat>) {
    if size == 0 || size % PAGE_SIZE != 0 then (rs, None) else FirstFit(rs, size)
  }

  /** Clear the in-use mark of the first range at `addr`; its size, if there is one. */
  function ReleaseRange(rs: seq<Range>, addr: nat): (seq<Range>, Option<nat>) {
    if rs == [] then (rs, None)
    else if rs[0].addr == addr then ([rs[0].(inUse := false)] + rs[1..], Some(rs[0].size))
    else
      var (rest, res) := ReleaseRange(rs[1..], addr);
      ([rs[0]] + rest, res)
  }

  /** The ranges tile `[lo, hi)` in address order with positive page-multiple sizes. */
  predicate Tiles(rs: seq<Range>, lo: nat, hi: nat) {
    if rs == [] then lo == hi
    else rs[0].addr == lo && rs[0].size > 0 && rs[0].size % PAGE_SIZE == 0 && Tiles(rs[1..], lo + rs[0].size, hi)
  }

  predicate Covers(r: Range, a: nat) {
    r.addr <= a < r.addr + r.size
  }

  /** Address `a` belongs to a range in use. */
  predicate InUseAt(rs: seq<Range>, a: nat) {
    exists r :: r in rs && r.inUse && Covers(r, a)
  }

  predicate InUseStart(rs: seq<Range>, addr: nat) {
    exists r :: r in rs && r.inUse && r.addr == addr
  }

  predicate Starts(rs: seq<Range>, a: nat) {
    exists r :: r in rs && r.addr == a
  }

  lemma {:induction false} TilesBounds(rs: seq<Range>, lo: nat, hi: nat)
    requires Tiles(rs, lo, hi)
    ensures lo <= hi
    ensures forall r :: r in rs ==> lo <= r.addr && 0 < r.size && r.addr + r.size <= hi && r.size % PAGE_SIZE == 0
    ensures forall r :: r in rs ==> (r.addr - lo) % PAGE_SIZE == 0
  {
    if rs == [] {
    } else {
      TilesBounds(rs[1..], lo + rs[0].size, hi);
      assert rs == [rs[0]] + rs[1..];
    }
  }

  /** Ranges of a tiling that share an address are the same range. */
  lemma {:induction false} TilesDisjoint(rs: seq<Range>, lo: nat, hi: nat, r: Range, s: Range, a: nat)
    requires Tiles(rs, lo, hi) && r in rs && s in rs && Covers(r, a) && Covers(s, a)
    ensures r == s
  {
    assert rs == [rs[0]] + rs[1..];
    TilesBounds(rs[1..], lo + rs[0].size, hi);
    if r != rs[0] && s != rs[0] {
      TilesDisjoint(rs[1..], lo + rs[0].size, hi, r, s, a);
    }
  }

  /** The granted range lay in free space, is now in use, and nothing else changed hands. */
  ghost predicate Granted(rs: seq<Range>, rs': seq<Range>, at: nat, size: nat) {
    && Range(at, size, true) in rs'
    && (forall a: nat :: InUseAt(rs', a) <==> InUseAt(rs, a) || at <= a < at + size)
    && (forall a: nat :: at <= a < at + size ==> !InUseAt(rs, a))
    && (forall r :: r in rs && r.inUse ==> r in rs')
    && (forall a: nat :: Starts(rs, a) ==> Starts(rs', a))
  }

  lemma InUseCons(r: Range, rs: seq<Range>, a: nat)
    ensures InUseAt([r] + rs, a) <==> (r.inUse && Covers(r, a)) || InUseAt(rs, a)
    ensures Starts([r] + rs, a) <==> r.addr == a || Starts(rs, a)
  {
    if InUseAt(rs, a) {
      var s :| s in rs && s.inUse && Covers(s, a);
      assert s in [r] + rs;
    }
    if Starts(rs, a) {
      var s :| s in rs && s.addr == a;
      assert s in [r] + rs;
    }
    assert r in [r] + rs;
  }

  lemma {:induction false} FirstFitGrants(rs: seq<Range>, lo: nat, hi: nat, size: nat)
    requires Tiles(rs, lo, hi) && size > 0 && size % PAGE_SIZE == 0
    ensures var (rs', res) := FirstFit(rs, size);
      && Tiles(rs', lo, hi)
      && (res.None? ==> rs' == rs)
      && (res.Some? ==> Granted(rs, rs', res.value, size))
      && (res.None? <==> forall r :: r in rs && !r.inUse ==> r.size < size)
  {
    if rs == [] {
    } else {
      var r, rest := rs[0], rs[1..];
      assert rs == [r] + rest;
      if !r.inUse && r.size >= size {
        HeadGrants(r, rest, lo, hi, size);
      } else {
        FirstFitGrants(rest, lo + r.size, hi, size);
        var (rest', res) := FirstFit(rest, size);
        TailTiles(r, rest', lo, hi);
        if res.Some? {
          TailGrants(r, rest, rest', lo, hi, res.value, size);
        }
      }
    }
  }

  lemma TailTiles(r: Range, rest: seq<Range>, lo: nat, hi: nat)
    requires r.addr == lo && r.size > 0 && r.size % PAGE_SIZE == 0 && Tiles(rest, lo + r.size, hi)
    ensures Tiles([r] + rest, lo, hi)
  {
    assert ([r] + rest)[1..] == rest;
  }

  lemma TailGrants(r: Range, rest: seq<Range>, rest': seq<Range>, lo: nat, hi: nat, at: nat, size: nat)
    requires r.addr == lo && Tiles(rest', lo + r.size, hi) && Granted(rest, rest', at, size) && size > 0
    ensures Granted([r] + rest, [r] + rest', at, size)
  {
    TilesBounds(rest', lo + r.size, hi);
    forall a: nat
      ensures InUseAt([r] + rest', a) <==> InUseAt([r] + rest, a) || at <= a < at + size
      ensures at <= a < at + size ==> !InUseAt([r] + rest, a)
      ensures Starts([r] + rest, a) ==> Starts([r] + rest', a)
    {
      InUseCons(r, rest, a);
      InUseCons(r, rest', a);
    }
  }

  lemma HeadGrants(r: Range, rest: seq<Range>, lo: nat, hi: nat, size: nat)
    requires Tiles([r] + rest, lo, hi) && size > 0 && size % PAGE_SIZE == 0 && !r.inUse && r.size >= size
    ensures var (rs', res) := FirstFit([r] + rest, size);
      res.Some? && Tiles(rs', lo, hi) && Granted([r] + rest, rs', res.value, size)
  {
    assert ([r] + rest)[1..] == rest;
    var (rs', res) := FirstFit([r] + rest, size);
    TilesBounds(rest, lo + r.size, hi);
    if r.size == size {
      assert rs'[1..] == rest && rs' == [r.(inUse := true)] + rest;
      forall a: nat
        ensures InUseAt(rs', a) <==> InUseAt([r] + rest, a) || r.addr <= a < r.addr + size
        ensures r.addr <= a < r.addr + size ==> !InUseAt([r] + rest, a)
        ensures Starts([r] + rest, a) ==> Starts(rs', a)
      {
        InUseCons(r, rest, a);
        InUseCons(r.(inUse := true), rest, a);
      }
    } else {
      var at := r.addr + r.size - size;
      var low, high := r.(size := r.size - size), Range(at, size, true);
      assert rs'[1..] == [high] + rest && rs' == [low] + ([high] + rest) && ([high] + rest)[1..] == rest;
      forall a: nat
        ensures InUseAt(rs', a) <==> InUseAt([r] + rest, a) || at <= a < at + size
        ensures at <= a < at + size ==> !InUseAt([r] + rest, a)
        ensures Starts([r] + rest, a) ==> Starts(rs', a)
      {
        InUseCons(r, rest, a);
        InUseCons(high, rest, a);
        InUseCons(low, [high] + rest, a);
      }
    }
  }

  /** A request is served if and only if some free range is large enough, and keeps the arena tiled. */
  lemma MapRangeGrants(rs: seq<Range>, size: nat)
    requires Tiles(rs, VMALLOC_START, VMALLOC_END) && size > 0 && size % PAGE_SIZE == 0
    ensures var (rs', res) := MapRange(rs, size);
      && Tiles(rs', VMALLOC_START, VMALLOC_END)
      && (res.None? ==> rs' == rs)
      && (res.Some? ==> Granted(rs, rs', res.value, size))
      && (res.None? <==> forall r :: r in rs && !r.inUse ==> r.size < size)
  {
    FirstFitGrants(rs, VMALLOC_START, VMALLOC_END, size);
  }

  /** A request of any size: what is refused, and that a refusal changes nothing. */
  lemma MapRangeServedIff(rs: seq<Range>, size: nat)
    requires Tiles(rs, VMALLOC_START, VMALLOC_END)
    ensures MapRange(rs, size).1.Some? <==>
      size > 0 && size % PAGE_SIZE == 0 && exists r :: r in rs && !r.inUse && r.size >= size
    ensures MapRange(rs, size).1.None? ==> MapRange(rs, size).0 == rs
  {
    if size > 0 && size % PAGE_SIZE == 0 {
      MapRangeGrants(rs, size);
    }
  }

  /** Releasing a range in use returns the size it was granted with and frees exactly its addresses. */
  lemma {:induction false} ReleaseRangeFrees(rs: seq<Range>, lo: nat, hi: nat, addr: nat, size: nat)
    requires Tiles(rs, lo, hi) && Range(addr, size, true) in rs
    ensures var (rs', res) := ReleaseRange(rs, addr);
      && res == Some(size) && Tiles(rs', lo, hi) && Range(addr, size, false) in rs'
      && (forall a: nat :: InUseAt(rs', a) <==> InUseAt(rs, a) && !(addr <= a < addr + size))
      && (forall a: nat :: addr <= a < addr + size ==> InUseAt(rs, a))
      && (forall r :: r in rs && r.inUse && r.addr != addr ==> r in rs')
      && (forall a: nat :: Starts(rs, a) <==> Starts(rs', a))
  {
    var r, rest := rs[0], rs[1..];
    assert rs == [r] + rest;
    TilesBounds(rest, lo + r.size, hi);
    var (rs', res) := ReleaseRange(rs, addr);
    if r.addr == addr {
      TilesBounds(rs, lo, hi);
      TilesDisjoint(rs, lo, hi, r, Range(addr, size, true), addr);
      var off := r.(inUse := false);
      assert rs' == [off] + rest;
      TailTiles(off, rest, lo, hi);
      forall a: nat
        ensures InUseAt(rs', a) <==> InUseAt(rs, a) && !(addr <= a < addr + size)
        ensures addr <= a < addr + size ==> InUseAt(rs, a)
        ensures Starts(rs, a) <==> Starts(rs', a)
      {
        InUseCons(r, rest, a);
        InUseCons(off, rest, a);
      }
    } else {
      ReleaseRangeFrees(rest, lo + r.size, hi, addr, size);
      var (rest', res') := ReleaseRange(rest, addr);
      TailTiles(r, rest', lo, hi);
      forall a: nat
        ensures InUseAt(rs', a) <==> InUseAt(rs, a) && !(addr <= a < addr + size)
        ensures addr <= a < addr + size ==> InUseAt(rs, a)
        ensures Starts(rs, a) <==> Starts(rs', a)
      {
        InUseCons(r, rest, a);
        InUseCons(r, rest', a);
      }
    }
  }
}
