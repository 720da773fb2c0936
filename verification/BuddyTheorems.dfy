/**
 What the free lists of the buddy allocator mean: they are determined by the
 free pages alone, allocation fails only when it must, and an allocation
 followed by the matching free is the identity.
 */
module BuddyTheorems {
  import opened Bits
  import opened BuddySpec
  import opened Collections

  /** Every page of the run of `2^o` pages at `p` is in `F`. */
  ghost predicate RunFree(F: iset<nat>, p: nat, o: nat) {
    forall q: nat :: InBlock(q, p, o) ==> q in F
  }

  /** A naturally aligned run of `F` that no larger aligned run of `F` contains. */
  ghost predicate MaximalRun(F: iset<nat>, p: nat, o: nat) {
    && Aligned(p, o)
    && RunFree(F, p, o)
    && (o < MAX_ORDER ==> !RunFree(F, Base(p, o + 1), o + 1))
  }

  lemma RunHalves(F: iset<nat>, p: nat, o: nat)
    requires o < MAX_ORDER && Aligned(p, o + 1) && RunFree(F, p, o + 1)
    ensures var b := GetBuddy(p, o);
      Aligned(p, o) && Aligned(b, o) && RunFree(F, p, o) && RunFree(F, b, o) && Shr(p, o + 1) == Shr(b, o + 1)
  {
    AlignedDown(p, o);
    BuddyFacts(p, o);
    BlockHalves(p, o);
    var b := GetBuddy(p, o);
    forall q: nat | InBlock(q, p, o) || InBlock(q, b, o) ensures q in F {
      assert q in Block(p, o) + Block(b, o);
    }
  }

  /** Coalescing covers each aligned free run by one free block. */
  lemma {:induction false} Covering(l: Lists, p: nat, o: nat) returns (o': nat)
    requires o <= MAX_ORDER && Coalesced(l) && Aligned(p, o) && RunFree(FreeSet(l), p, o)
    ensures o <= o' < N_ORDERS && FreeAt(l, p, o')
    decreases o
  {
    if o == 0 {
      assert InBlock(p, p, 0);
      o' :| FreeAt(l, p, o');
    } else {
      RunHalves(FreeSet(l), p, o - 1);
      var b := GetBuddy(p, o - 1);
      o' := Covering(l, p, o - 1);
      if o' == o - 1 {
        o' := Covering(l, b, o - 1);
        AlignedBase(p, o - 1);
        AlignedBase(b, o - 1);
        ShrMono(p, b, o, if o' < o then o else o');
      }
    }
  }

  lemma BlockIsMaximal(l: Lists, p: nat, o: nat)
    requires Inv(l) && o < N_ORDERS && p in l[o]
    ensures MaximalRun(FreeSet(l), p, o)
  {
    FreeListed(l, p, o);
    if o < MAX_ORDER && RunFree(FreeSet(l), Base(p, o + 1), o + 1) {
      var p' := Base(p, o + 1);
      AlignedBase(p, o + 1);
      var o' := Covering(l, p', o + 1);
      AlignedBase(p', o');
      ShrMono(p', p, o + 1, o');
      assert false;
    }
  }

  lemma MaximalIsBlock(l: Lists, p: nat, o: nat)
    requires Inv(l) && o < N_ORDERS && MaximalRun(FreeSet(l), p, o)
    ensures p in l[o]
  {
    var o' := Covering(l, p, o);
    AlignedBase(p, o);
    if o < o' {
      var p' := Base(p, o + 1);
      AlignedBase(p, o + 1);
      AlignedBase(p, o');
      ShrMono(p', p, o + 1, o');
      FreeListed(l, Base(p, o'), o');
      forall q: nat | InBlock(q, p', o + 1) ensures q in FreeSet(l) {
        InBlockShr(q, p', o + 1);
        ShrMono(q, p', o + 1, o');
        InBlockShr(q, Base(p, o'), o');
      }
      assert false;
    }
  }

  /**
   The free blocks of order `o` are exactly the maximal aligned free runs: the
   decomposition is a function of the set of free pages.
   */
  lemma FreeBlocksAreMaximalRuns(l: Lists, p: nat, o: nat)
    requires Inv(l) && o < N_ORDERS
    ensures p in l[o] <==> MaximalRun(FreeSet(l), p, o)
  {
    if p in l[o] {
      BlockIsMaximal(l, p, o);
    }
    if MaximalRun(FreeSet(l), p, o) {
      MaximalIsBlock(l, p, o);
    }
  }

  /** History independence: equal free page sets mean equal block sets and equal counts at every order. */
  lemma HistoryIndependence(l1: Lists, l2: Lists)
    requires Inv(l1) && Inv(l2) && FreeSet(l1) == FreeSet(l2)
    ensures forall o :: 0 <= o < N_ORDERS ==> multiset(l1[o]) == multiset(l2[o]) && |l1[o]| == |l2[o]|
  {
    forall o | 0 <= o < N_ORDERS ensures multiset(l1[o]) == multiset(l2[o]) && |l1[o]| == |l2[o]| {
      forall p: nat ensures p in l1[o] <==> p in l2[o] {
        FreeBlocksAreMaximalRuns(l1, p, o);
        FreeBlocksAreMaximalRuns(l2, p, o);
      }
      SameElements(l1[o], l2[o]);
      assert |multiset(l1[o])| == |l1[o]| && |multiset(l2[o])| == |l2[o]|;
    }
  }

  /* ---- alloc ---- */

  /** Splitting a block lists its upper half and hands out the lower one. */
  lemma SplitStep(l: Lists, p: nat, o: nat)
    requires o < MAX_ORDER && Inv(l) && Aligned(p, o + 1) && Taken(l, p, o + 1) && l[o] == []
    ensures var b := GetBuddy(p, o); var l1 := FreeSpec(l, b, o);
      && Inv(l1) && Aligned(p, o) && Taken(l1, p, o)
      && FreeSet(l) + Block(p, o + 1) == FreeSet(l1) + Block(p, o)
      && Weight(l1) == Weight(l) + Pow2(o)
  {
    hide Inv, Taken, FreeSpec, Aligned;
    SplitLists(l, p, o);
    var b := GetBuddy(p, o);
    AlignedDown(p, o);
    BuddyFacts(p, o);
    TakenParts(l, p, b, o);
    FreeKeepsInv(l, b, o);
    var l1 := FreeSpec(l, b, o);
    assert FreeSet(l) + Block(p, o + 1) == FreeSet(l1) + Block(p, o) by {
      BlockHalves(p, o);
    }
    LowerStaysTaken(l, l1, p, o);
  }

  lemma LowerStaysTaken(l: Lists, l1: Lists, p: nat, o: nat)
    requires Taken(l, p, o) && FreeSet(l1) == FreeSet(l) + Block(p + Pow2(o), o)
    ensures Taken(l1, p, o)
  {
    forall q: nat | InBlock(q, p, o) ensures !FreePage(l1, q) {
      assert q in FreeSet(l1) <==> q in FreeSet(l) || q in Block(p + Pow2(o), o);
    }
  }

  lemma SplitLists(l: Lists, p: nat, o: nat)
    requires o < MAX_ORDER && Aligned(p, o + 1) && l[o] == []
    ensures GetBuddy(p, o) == p + Pow2(o) && FreeSpec(l, p + Pow2(o), o) == l[o := [p + Pow2(o)]]
  {
    AlignedDown(p, o);
    XorBit(p, o);
    assert [p + Pow2(o)] + l[o] == [p + Pow2(o)];
  }

  lemma TakenParts(l: Lists, p: nat, b: nat, o: nat)
    requires o < MAX_ORDER && Aligned(p, o + 1) && Taken(l, p, o + 1) && b == GetBuddy(p, o) && b == p + Pow2(o)
    ensures Taken(l, p, o) && Taken(l, b, o)
  {
    forall q: nat | InBlock(q, b, o) || InBlock(q, p, o) ensures !FreePage(l, q) {
      assert InBlock(q, p, o + 1);
    }
  }

  /** Alloc hands out an aligned block of free pages, or fails because every list from `o` up is empty. */
  lemma {:induction false} AllocKeepsInv(l: Lists, o: nat)
    requires o <= MAX_ORDER && Inv(l)
    ensures var (l', r) := AllocSpec(l, o);
      && Inv(l')
      && (forall j :: 0 <= j < o ==> l'[j] == l[j])
      && match r
         case None => l' == l && forall j :: o <= j < N_ORDERS ==> l[j] == []
         case Some(p) =>
           && Aligned(p, o) && Taken(l', p, o)
           && FreeSet(l) == FreeSet(l') + Block(p, o)
           && Weight(l) == Weight(l') + Pow2(o)
    decreases MAX_ORDER - o
  {
    if l[o] != [] {
      var s := l[o][1..];
      assert l[o] == [l[o][0]] + s;
      RemoveBlock(l, l[o][0], o, s);
      WeightUpdate(l, o, s);
      ShlSucc(|s|, o);
    } else if o < MAX_ORDER {
      AllocKeepsInv(l, o + 1);
      var (l1, r) := AllocSpec(l, o + 1);
      if r.Some? {
        SplitLists(l1, r.value, o);
        SplitStep(l1, r.value, o);
      }
    }
  }

  /* ---- which block, exactly ---- */

  /** `j` is the lowest order from `o` up whose list is not empty. */
  predicate FirstFrom(l: Lists, o: nat, j: nat) {
    o <= j < N_ORDERS && l[j] != [] && forall i :: o <= i < j ==> l[i] == []
  }

  /**
   Alloc hands out the first page of the head of the first list that has a
   block.  That list loses only its head, and of each order the block is split
   at, its upper half becomes free.
   */
  lemma {:induction false} AllocTakesHead(l: Lists, o: nat, j: nat)
    requires Inv(l) && FirstFrom(l, o, j)
    ensures var (l', r) := AllocSpec(l, o);
      && r == Some(l[j][0])
      && l'[j] == l[j][1..]
      && (forall i :: o <= i < j ==> l'[i] == [l[j][0] + Pow2(i)])
      && (forall i :: 0 <= i < o || j < i < N_ORDERS ==> l'[i] == l[i])
    decreases j - o
  {
    if o == j {
    } else {
      AllocTakesHead(l, o + 1, j);
      AllocKeepsInv(l, o + 1);
      SplitLists(AllocSpec(l, o + 1).0, l[j][0], o);
    }
  }

  /** The blocks `(Base(p, i), i)` find their buddies free below order `j`, and not at `j`. */
  predicate MergesUpTo(l: Lists, p: nat, o: nat, j: nat) {
    && o <= j < N_ORDERS
    && (forall i :: o <= i < j ==> GetBuddy(Base(p, i), i) in l[i])
    && (j < MAX_ORDER ==> GetBuddy(Base(p, j), j) !in l[j])
  }

  /**
   Free merges as far as buddies are free: each of those lists loses the one
   buddy, the next one gets the block that holds all of them as its new head,
   and no other list changes.
   */
  lemma {:induction false} FreeMergesUpTo(l: Lists, p: nat, o: nat, j: nat)
    requires Aligned(p, o) && MergesUpTo(l, p, o, j)
    ensures var l' := FreeSpec(l, p, o);
      && l'[j] == [Base(p, j)] + l[j]
      && (forall i :: o <= i < j ==> l'[i] == Remove(l[i], GetBuddy(Base(p, i), i)))
      && (forall i :: 0 <= i < o || j < i < N_ORDERS ==> l'[i] == l[i])
    decreases j - o
  {
    AlignedBase(p, o);
    if o == j {
    } else {
      var b := GetBuddy(p, o);
      var m := if b > p then p else b;
      var l1: Lists := l[o := Remove(l[o], b)];
      BuddyFacts(p, o);
      forall i: nat | o < i < N_ORDERS ensures Base(m, i) == Base(p, i) {
        ShrMono(m, p, o + 1, i);
      }
      FreeMergesUpTo(l1, m, o + 1, j);
    }
  }

  /** Exact completeness: alloc fails if and only if no aligned run of `2^o` pages is free. */
  lemma AllocFailsOnlyWhenItMust(l: Lists, o: nat)
    requires o <= MAX_ORDER && Inv(l)
    ensures AllocSpec(l, o).1.None? <==> !exists p: nat :: Aligned(p, o) && RunFree(FreeSet(l), p, o)
  {
    AllocKeepsInv(l, o);
    var (l', r) := AllocSpec(l, o);
    match r
    case Some(p) =>
      assert RunFree(FreeSet(l), p, o) by {
        forall q: nat | InBlock(q, p, o) ensures q in FreeSet(l) {
          assert q in Block(p, o);
        }
      }
    case None =>
      forall p: nat | Aligned(p, o) ensures !RunFree(FreeSet(l), p, o) {
        if RunFree(FreeSet(l), p, o) {
          var o' := Covering(l, p, o);
          assert false;
        }
      }
  }

  /** Exact round trip: freeing what was just allocated restores all free lists, order included. */
  lemma {:induction false} AllocThenFree(l: Lists, o: nat)
    requires o <= MAX_ORDER && Inv(l) && AllocSpec(l, o).1.Some?
    ensures FreeSpec(AllocSpec(l, o).0, AllocSpec(l, o).1.value, o) == l
    decreases MAX_ORDER - o
  {
    var (l', r) := AllocSpec(l, o);
    var p := r.value;
    if l[o] != [] {
      HeadBuddy(l, o);
      assert [p] + l'[o] == l[o];
      assert l'[o := l[o]] == l;
    } else {
      AllocKeepsInv(l, o + 1);
      AllocThenFree(l, o + 1);
      Rejoin(AllocSpec(l, o + 1).0, p, o);
    }
  }

  lemma HeadBuddy(l: Lists, o: nat)
    requires o <= MAX_ORDER && Inv(l) && l[o] != []
    ensures o < MAX_ORDER ==> GetBuddy(l[o][0], o) !in l[o][1..]
  {
    assert l[o][0] in l[o];
  }

  /** Freeing the lower half of a block just split rejoins it and goes on one order up. */
  lemma Rejoin(l: Lists, p: nat, o: nat)
    requires o < MAX_ORDER && Aligned(p, o + 1) && l[o] == []
    ensures FreeSpec(FreeSpec(l, GetBuddy(p, o), o), p, o) == FreeSpec(l, p, o + 1)
  {
    SplitLists(l, p, o);
    var b := p + Pow2(o);
    var l1: Lists := l[o := [b]];
    AlignedDown(p, o);
    assert Remove([b], b) == [];
    assert l1[o := []] == l;
    assert FreeSpec(l1, p, o) == FreeSpec(l1[o := Remove(l1[o], b)], p, o + 1);
  }

  /** A failed alloc is a no-op. */
  lemma {:induction false} FailedAllocKeepsLists(l: Lists, o: nat)
    requires o <= MAX_ORDER && AllocSpec(l, o).1.None?
    ensures AllocSpec(l, o).0 == l
    decreases MAX_ORDER - o
  {
    if o < MAX_ORDER && l[o] == [] {
      FailedAllocKeepsLists(l, o + 1);
    }
  }
}
