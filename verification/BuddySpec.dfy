/**
 The buddy page allocator on its free lists alone.

 `Lists[o]` is the free list of order `o`, head first, each entry the page
 frame number of a free block's first page.  `FreeSpec` and `AllocSpec` are the
 recursive coalescing free and the recursive splitting alloc.
 */
module BuddySpec {
  import opened Bits
  import opened Collections

  const MAX_ORDER: nat := 15
  const N_ORDERS: nat := 16

  type Lists = l: seq<seq<nat>> | |l| == N_ORDERS witness seq(N_ORDERS, _ => [])

  function GetBuddy(p: nat, o: nat): (b: nat)
    requires o <= MAX_ORDER
  {
    XorBit(p, o);
    Xor(p, Pow2(o))
  }

  function FreeSpec(l: Lists, p: nat, o: nat): Lists
    requires o <= MAX_ORDER
    decreases MAX_ORDER - o
  {
    var b := GetBuddy(p, o);
    if o < MAX_ORDER && b in l[o] then
      FreeSpec(l[o := Remove(l[o], b)], if b > p then p else b, o + 1)
    else
      l[o := [p] + l[o]]
  }

  function AllocSpec(l: Lists, o: nat): (r: (Lists, Option<nat>))
    requires o <= MAX_ORDER
    decreases MAX_ORDER - o
  {
    if l[o] != [] then (l[o := l[o][1..]], Some(l[o][0]))
    else if o == MAX_ORDER then (l, None)
    else
      var (l1, r) := AllocSpec(l, o + 1);
      match r
      case None => (l1, None)
      case Some(p) => (FreeSpec(l1, GetBuddy(p, o), o), Some(p))
  }

  /* ---- what the lists mean ---- */

  /** Page `q` lies in the order-`o` block that starts at `p`. */
  predicate InBlock(q: nat, p: nat, o: nat) {
    p <= q < p + Pow2(o)
  }

  /** Page `q` lies in a free block. */
  ghost predicate FreeAt(l: Lists, q: nat, o: nat) {
    o < N_ORDERS && Base(q, o) in l[o]
  }

  ghost predicate FreePage(l: Lists, q: nat) {
    exists o: nat :: FreeAt(l, q, o)
  }

  ghost function FreeSet(l: Lists): iset<nat> {
    iset q: nat | FreePage(l, q)
  }

  ghost function Block(p: nat, o: nat): iset<nat> {
    iset q: nat | InBlock(q, p, o)
  }

  ghost predicate ListsAligned(l: Lists) {
    forall o, p :: 0 <= o < N_ORDERS && p in l[o] ==> Aligned(p, o)
  }

  /** Blocks that share a page at the coarser order are the same block. */
  ghost predicate ListsDisjoint(l: Lists) {
    forall o, p, o', p' :: 0 <= o <= o' < N_ORDERS && p in l[o] && p' in l[o'] && Shr(p, o') == Shr(p', o')
      ==> o == o' && p == p'
  }

  /** No two buddies below the top order are both free. */
  ghost predicate Coalesced(l: Lists) {
    forall o, p :: 0 <= o < MAX_ORDER && p in l[o] ==> GetBuddy(p, o) !in l[o]
  }

  ghost predicate Inv(l: Lists) {
    && (forall o :: 0 <= o < N_ORDERS ==> Distinct(l[o]))
    && ListsAligned(l)
    && ListsDisjoint(l)
    && Coalesced(l)
  }

  /** Pages on the free lists, counted as the sum of `count[o] << o`. */
  function Weight(l: seq<seq<nat>>): nat {
    if l == [] then 0 else Weight(l[..|l| - 1]) + Shl(|l[|l| - 1]|, |l| - 1)
  }

  /** No page of the block is free. */
  ghost predicate Taken(l: Lists, p: nat, o: nat) {
    forall q: nat :: InBlock(q, p, o) ==> !FreePage(l, q)
  }

  /** The free block `(p, o)` is what `l2` has beyond `l1`. */
  ghost predicate OneMore(l1: Lists, l2: Lists, p: nat, o: nat) {
    forall o', x :: 0 <= o' < N_ORDERS ==> (x in l2[o'] <==> x in l1[o'] || (o' == o && x == p))
  }

  /* ---- block arithmetic ---- */

  lemma InBlockShr(q: nat, p: nat, o: nat)
    requires Aligned(p, o)
    ensures InBlock(q, p, o) <==> Shr(q, o) == Shr(p, o)
  {
    AlignedBase(p, o);
    ShrInterval(q, Shr(p, o), o);
  }

  lemma BuddyFacts(p: nat, o: nat)
    requires o <= MAX_ORDER && Aligned(p, o)
    ensures var b := GetBuddy(p, o);
      && b != p && Aligned(b, o) && GetBuddy(b, o) == p
      && Shr(b, o) != Shr(p, o) && Shr(b, o + 1) == Shr(p, o + 1)
      && (b > p <==> Shr(p, o) % 2 == 0)
      && Aligned(if b > p then p else b, o + 1)
  {
    var b, k := GetBuddy(p, o), Shr(p, o);
    var k' := BuddyIndex(p, o);
    AlignedBase(p, o);
    ShrShl(k', o);
    XorBit(b, o);
    ShrSucc(p, o);
    ShrSucc(b, o);
    if k % 2 == 0 {
      AlignedUp(p, o);
    } else {
      AlignedUp(b, o);
    }
  }

  lemma BuddyIndex(p: nat, o: nat) returns (k': nat)
    requires o <= MAX_ORDER && Aligned(p, o)
    ensures k' == if Shr(p, o) % 2 == 0 then Shr(p, o) + 1 else Shr(p, o) - 1
    ensures GetBuddy(p, o) == Shl(k', o)
    ensures GetBuddy(p, o) == if Shr(p, o) % 2 == 0 then p + Pow2(o) else p - Pow2(o)
  {
    var k: int := Shr(p, o);
    k' := if k % 2 == 0 then k + 1 else k - 1;
    AlignedBase(p, o);
    XorBit(p, o);
    ShlSucc(if k % 2 == 0 then k else k - 1, o);
  }

  /** A block of order `o+1` is its two halves. */
  lemma Halves(q: nat, p: nat, o: nat)
    requires o <= MAX_ORDER && Aligned(p, o)
    ensures Shr(q, o + 1) == Shr(p, o + 1) <==> Shr(q, o) == Shr(p, o) || Shr(q, o) == Shr(GetBuddy(p, o), o)
  {
    BuddyFacts(p, o);
    ShrSucc(p, o);
    ShrSucc(q, o);
    ShrSucc(GetBuddy(p, o), o);
  }

  lemma {:induction false} WeightUpdate(l: seq<seq<nat>>, o: nat, s: seq<nat>)
    requires o < |l|
    ensures Weight(l[o := s]) == Weight(l) + Shl(|s|, o) - Shl(|l[o]|, o)
  {
    var n := |l| - 1;
    if o < n {
      assert l[o := s][..n] == l[..n][o := s];
      WeightUpdate(l[..n], o, s);
    } else {
      assert l[o := s][..n] == l[..n];
    }
  }

  /* ---- one block more or less ---- */

  lemma FreeListed(l: Lists, p: nat, o: nat)
    requires ListsAligned(l) && o < N_ORDERS && p in l[o]
    ensures forall q: nat :: InBlock(q, p, o) ==> FreePage(l, q)
  {
    forall q: nat | InBlock(q, p, o) ensures FreePage(l, q) {
      InBlockShr(q, p, o);
      AlignedBase(p, o);
      assert FreeAt(l, q, o);
    }
  }

  lemma TakenShr(l: Lists, p: nat, o: nat, p': nat, o': nat)
    requires ListsAligned(l) && Aligned(p, o) && Taken(l, p, o)
    requires o' < N_ORDERS && p' in l[o']
    ensures var m := if o' <= o then o else o'; Shr(p', m) != Shr(p, m)
  {
    if o' <= o && Shr(p', o) == Shr(p, o) {
      InBlockShr(p', p, o);
      AlignedBase(p', o');
      assert FreeAt(l, p', o');
    } else if o < o' && Shr(p', o') == Shr(p, o') {
      InBlockShr(p, p, o);
      AlignedBase(p', o');
      assert FreeAt(l, p, o');
    }
  }

  lemma OneMoreFree(l1: Lists, l2: Lists, p: nat, o: nat)
    requires o < N_ORDERS && Aligned(p, o) && OneMore(l1, l2, p, o)
    ensures FreeSet(l2) == FreeSet(l1) + Block(p, o)
  {
    forall q: nat ensures FreePage(l2, q) <==> FreePage(l1, q) || InBlock(q, p, o) {
      InBlockShr(q, p, o);
      AlignedBase(p, o);
      AlignedBase(q, o);
      if FreePage(l2, q) {
        var o': nat :| FreeAt(l2, q, o');
        assert FreeAt(l1, q, o') || (o' == o && Base(q, o) == p);
      }
      if FreePage(l1, q) {
        var o': nat :| FreeAt(l1, q, o');
        assert FreeAt(l2, q, o');
      }
      if InBlock(q, p, o) {
        assert FreeAt(l2, q, o);
      }
    }
  }

  lemma AddBlock(l: Lists, p: nat, o: nat)
    requires o < N_ORDERS && Inv(l) && Aligned(p, o) && Taken(l, p, o)
    requires o < MAX_ORDER ==> GetBuddy(p, o) !in l[o]
    ensures var l2 := l[o := [p] + l[o]]; Inv(l2) && FreeSet(l2) == FreeSet(l) + Block(p, o)
  {
    hide FreePage, GetBuddy, Shr;
    var l2: Lists := l[o := [p] + l[o]];
    OneMoreFree(l, l2, p, o);
    InBlockShr(p, p, o);
    forall o', p' | 0 <= o' < N_ORDERS && p' in l[o']
      ensures var m := if o' <= o then o else o'; Shr(p', m) != Shr(p, m)
    {
      TakenShr(l, p, o, p', o');
    }
    assert ListsDisjoint(l2) by {
      forall o1, p1, o2, p2 | 0 <= o1 <= o2 < N_ORDERS && p1 in l2[o1] && p2 in l2[o2] && Shr(p1, o2) == Shr(p2, o2)
        ensures o1 == o2 && p1 == p2
      {
        assert p1 in l[o1] || (o1 == o && p1 == p);
        assert p2 in l[o2] || (o2 == o && p2 == p);
      }
    }
    assert Coalesced(l2) by {
      forall o1, p1 | 0 <= o1 < MAX_ORDER && p1 in l2[o1] ensures GetBuddy(p1, o1) !in l2[o1] {
        BuddyFacts(p1, o1);
      }
    }
    assert p !in l[o];
  }

  lemma RemoveBlock(l: Lists, p: nat, o: nat, s: seq<nat>)
    requires o < N_ORDERS && Inv(l) && p in l[o] && Distinct(s)
    requires forall x :: x in s <==> x in l[o] && x != p
    ensures var l1: Lists := l[o := s]; Inv(l1) && Taken(l1, p, o) && FreeSet(l) == FreeSet(l1) + Block(p, o)
  {
    var l1: Lists := l[o := s];
    OneMoreFree(l1, l, p, o);
    forall q: nat | InBlock(q, p, o) ensures !FreePage(l1, q) {
      InBlockShr(q, p, o);
      if FreePage(l1, q) {
        var o': nat :| FreeAt(l1, q, o');
        var p' := Base(q, o');
        AlignedBase(q, o');
        assert p' in l[o'];
        if o' <= o {
          ShrMono(q, p', o', o);
        } else {
          ShrMono(q, p, o, o');
        }
      }
    }
  }

  /* ---- free ---- */

  /** Free keeps the free lists well formed and adds exactly the pages of the block. */
  lemma {:induction false} FreeKeepsInv(l: Lists, p: nat, o: nat)
    requires o <= MAX_ORDER && Inv(l) && Aligned(p, o) && Taken(l, p, o)
    ensures Inv(FreeSpec(l, p, o))
    ensures FreeSet(FreeSpec(l, p, o)) == FreeSet(l) + Block(p, o)
    ensures Weight(FreeSpec(l, p, o)) == Weight(l) + Pow2(o)
    decreases MAX_ORDER - o
  {
    var b := GetBuddy(p, o);
    if o < MAX_ORDER && b in l[o] {
      var s, m := Remove(l[o], b), if b > p then p else b;
      MergeStep(l, p, o);
      FreeKeepsInv(l[o := s], m, o + 1);
    } else {
      AddBlock(l, p, o);
      WeightUpdate(l, o, [p] + l[o]);
      ShlSucc(|l[o]|, o);
    }
  }

  /** Merging hands the doubled block to the next order with nothing lost. */
  lemma MergeStep(l: Lists, p: nat, o: nat)
    requires o < MAX_ORDER && Inv(l) && Aligned(p, o) && Taken(l, p, o)
    requires GetBuddy(p, o) in l[o]
    ensures var b := GetBuddy(p, o);
      var l1: Lists, m := l[o := Remove(l[o], b)], if b > p then p else b;
      && Inv(l1) && Aligned(m, o + 1) && Taken(l1, m, o + 1)
      && FreeSet(l1) + Block(m, o + 1) == FreeSet(l) + Block(p, o)
      && Weight(l1) + Pow2(o + 1) == Weight(l) + Pow2(o)
  {
    var b := GetBuddy(p, o);
    var s, m := Remove(l[o], b), if b > p then p else b;
    var l1: Lists := l[o := s];
    RemoveFacts(l[o], b);
    RemoveBlock(l, b, o, s);
    BuddyFacts(p, o);
    BlockHalves(p, o);
    forall q: nat | InBlock(q, m, o + 1) ensures !FreePage(l1, q) {
      assert q in Block(m, o + 1);
      assert q in FreeSet(l1) ==> q in FreeSet(l);
    }
    WeightUpdate(l, o, s);
    ShlSucc(|s|, o);
  }

  lemma BlockHalves(p: nat, o: nat)
    requires o < MAX_ORDER && Aligned(p, o)
    ensures var b := GetBuddy(p, o);
      Block(if b > p then p else b, o + 1) == Block(p, o) + Block(b, o)
  {
    var b := GetBuddy(p, o);
    var m := if b > p then p else b;
    BuddyFacts(p, o);
    forall q: nat ensures InBlock(q, m, o + 1) <==> InBlock(q, p, o) || InBlock(q, b, o) {
      InBlockShr(q, m, o + 1);
      InBlockShr(q, p, o);
      InBlockShr(q, b, o);
      Halves(q, p, o);
    }
  }
}
