/**
 The buddy allocator over whole runs: seeding, allocations and matching frees
 in any order, starting from empty free lists.
 */
module BuddyRuns {
  import opened Bits
  import opened BuddySpec
  import opened BuddyTheorems
  import opened Collections

  /** The free lists, and the order of every block handed out and not yet freed. */
  datatype Pool = Pool(lists: Lists, held: map<nat, nat>)

  datatype Op =
    | Seed(page: nat, order: nat)  // free_pages on pages the allocator has never seen
    | Alloc(order: nat)
    | Free(page: nat)              // free of a held block at the order it was allocated

  const EmptyPool := Pool(seq(N_ORDERS, _ => []), map[])

  /** What callers owe: seeds are fresh aligned blocks of the zones, frees match allocations. */
  ghost predicate Legal(zones: iset<nat>, s: Pool, op: Op) {
    match op
    case Seed(p, o) =>
      && o <= MAX_ORDER && Aligned(p, o) && Block(p, o) <= zones
      && Taken(s.lists, p, o)
      && (forall h :: h in s.held ==> Block(p, o) !! Block(h, s.held[h]))
    case Alloc(o) => o <= MAX_ORDER
    case Free(p) => p in s.held && s.held[p] <= MAX_ORDER
  }

  ghost function Step(zones: iset<nat>, s: Pool, op: Op): Pool
    requires Legal(zones, s, op)
  {
    match op
    case Seed(p, o) => s.(lists := FreeSpec(s.lists, p, o))
    case Alloc(o) =>
      var (l, r) := AllocSpec(s.lists, o);
      if r.None? then s.(lists := l) else Pool(l, s.held[r.value := o])
    case Free(p) => Pool(FreeSpec(s.lists, p, s.held[p]), s.held - {p})
  }

  ghost predicate LegalRun(zones: iset<nat>, s: Pool, ops: seq<Op>)
    decreases |ops|
  {
    ops == [] || (Legal(zones, s, ops[0]) && LegalRun(zones, Step(zones, s, ops[0]), ops[1..]))
  }

  ghost function Run(zones: iset<nat>, s: Pool, ops: seq<Op>): Pool
    requires LegalRun(zones, s, ops)
    decreases |ops|
  {
    if ops == [] then s else Run(zones, Step(zones, s, ops[0]), ops[1..])
  }

  ghost predicate HeldPage(held: map<nat, nat>, q: nat) {
    exists h :: h in held && InBlock(q, h, held[h])
  }

  ghost function HeldSet(held: map<nat, nat>): iset<nat> {
    iset q: nat | HeldPage(held, q)
  }

  /** Free and held blocks are aligned, inside the zones and pairwise disjoint. */
  ghost predicate Safe(zones: iset<nat>, s: Pool) {
    && Inv(s.lists)
    && FreeSet(s.lists) <= zones
    && (forall h :: h in s.held ==>
          && s.held[h] <= MAX_ORDER && Aligned(h, s.held[h])
          && Block(h, s.held[h]) <= zones && Taken(s.lists, h, s.held[h]))
    && (forall h, h' :: h in s.held && h' in s.held && h != h' ==> Block(h, s.held[h]) !! Block(h', s.held[h']))
  }

  /** The pages an operation brings under the allocator's control. */
  ghost function Seeded(op: Op): iset<nat> {
    match op
    case Seed(p, o) => Block(p, o)
    case _ => iset{}
  }

  /** How far an operation moves the count of free pages. */
  function PagesFreed(s: Pool, op: Op): int
    requires op.Alloc? ==> op.order <= MAX_ORDER
    requires op.Free? ==> op.page in s.held
  {
    match op
    case Seed(_, o) => Pow2(o)
    case Alloc(o) => if AllocSpec(s.lists, o).1.Some? then -(Pow2(o) as int) else 0
    case Free(p) => Pow2(s.held[p])
  }

  lemma TakenDisjoint(l: Lists, p: nat, o: nat)
    ensures Taken(l, p, o) <==> FreeSet(l) !! Block(p, o)
  {
    if Taken(l, p, o) {
      forall q: nat | q in Block(p, o) ensures q !in FreeSet(l) {
      }
    } else {
      var q: nat :| InBlock(q, p, o) && FreePage(l, q);
      assert q in FreeSet(l) && q in Block(p, o);
    }
  }

  lemma FreeHeld(zones: iset<nat>, s: Pool, p: nat)
    requires Safe(zones, s) && p in s.held
    ensures var s' := Step(zones, s, Free(p));
      && Safe(zones, s')
      && FreeSet(s'.lists) + HeldSet(s'.held) == FreeSet(s.lists) + HeldSet(s.held)
      && Weight(s'.lists) == Weight(s.lists) + Pow2(s.held[p])
  {
    var o := s.held[p];
    var s' := Step(zones, s, Free(p));
    FreeKeepsInv(s.lists, p, o);
    forall h | h in s'.held ensures Taken(s'.lists, h, s.held[h]) {
      TakenDisjoint(s.lists, h, s.held[h]);
      TakenDisjoint(s'.lists, h, s.held[h]);
    }
    forall q: nat ensures q in HeldSet(s.held) <==> q in HeldSet(s'.held) || q in Block(p, o) {
      if q in HeldSet(s.held) && q !in Block(p, o) {
        var h :| h in s.held && InBlock(q, h, s.held[h]);
        assert h in s'.held;
      }
    }
  }

  lemma SeedFresh(zones: iset<nat>, s: Pool, p: nat, o: nat)
    requires Safe(zones, s) && Legal(zones, s, Seed(p, o))
    ensures var s' := Step(zones, s, Seed(p, o));
      && Safe(zones, s')
      && FreeSet(s'.lists) == FreeSet(s.lists) + Block(p, o)
      && Weight(s'.lists) == Weight(s.lists) + Pow2(o)
  {
    var s' := Step(zones, s, Seed(p, o));
    FreeKeepsInv(s.lists, p, o);
    forall h | h in s'.held ensures Taken(s'.lists, h, s.held[h]) {
      TakenDisjoint(s.lists, h, s.held[h]);
      TakenDisjoint(s'.lists, h, s.held[h]);
    }
  }

  lemma AllocFresh(zones: iset<nat>, s: Pool, o: nat)
    requires Safe(zones, s) && o <= MAX_ORDER && AllocSpec(s.lists, o).1.Some?
    ensures var s' := Step(zones, s, Alloc(o));
      && Safe(zones, s')
      && FreeSet(s'.lists) + HeldSet(s'.held) == FreeSet(s.lists) + HeldSet(s.held)
      && Weight(s.lists) == Weight(s'.lists) + Pow2(o)
  {
    hide Inv, FreePage, AllocSpec;
    AllocKeepsInv(s.lists, o);
    var s' := Step(zones, s, Alloc(o));
    var p := AllocSpec(s.lists, o).1.value;
    assert InBlock(p, p, o) && p in Block(p, o);
    assert p in s.held ==> InBlock(p, p, s.held[p]);
    TakenDisjoint(s'.lists, p, o);
    forall h | h in s.held
      ensures Taken(s'.lists, h, s.held[h]) && Block(h, s.held[h]) !! Block(p, o)
    {
      TakenDisjoint(s.lists, h, s.held[h]);
      TakenDisjoint(s'.lists, h, s.held[h]);
    }
    forall q: nat ensures q in HeldSet(s'.held) <==> q in HeldSet(s.held) || q in Block(p, o) {
      if q in HeldSet(s.held) {
        var h :| h in s.held && InBlock(q, h, s.held[h]);
        assert h in s'.held && s'.held[h] == s.held[h];
      }
      if q in Block(p, o) {
        assert p in s'.held && InBlock(q, p, s'.held[p]);
      }
    }
  }

  /** One step keeps every block safe and neither loses nor invents a page. */
  lemma StepSafe(zones: iset<nat>, s: Pool, op: Op)
    requires Safe(zones, s) && Legal(zones, s, op)
    ensures var s' := Step(zones, s, op);
      && Safe(zones, s')
      && FreeSet(s'.lists) + HeldSet(s'.held) == FreeSet(s.lists) + HeldSet(s.held) + Seeded(op)
      && Weight(s'.lists) == Weight(s.lists) + PagesFreed(s, op)
  {
    match op
    case Seed(p, o) => SeedFresh(zones, s, p, o);
    case Alloc(o) =>
      AllocKeepsInv(s.lists, o);
      if AllocSpec(s.lists, o).1.Some? {
        AllocFresh(zones, s, o);
      }
    case Free(p) => FreeHeld(zones, s, p);
  }

  lemma {:induction false} RunKeepsSafe(zones: iset<nat>, s: Pool, ops: seq<Op>)
    requires Safe(zones, s) && LegalRun(zones, s, ops)
    ensures Safe(zones, Run(zones, s, ops))
    decreases |ops|
  {
    if ops == [] {
    } else {
      StepSafe(zones, s, ops[0]);
      RunKeepsSafe(zones, Step(zones, s, ops[0]), ops[1..]);
    }
  }

  lemma EmptyIsFree()
    ensures Inv(EmptyPool.lists) && FreeSet(EmptyPool.lists) == iset{}
  {
    assert forall o, q :: !FreeAt(EmptyPool.lists, q, o);
  }

  /** Every state of every run is safe. */
  lemma RunsAreSafe(zones: iset<nat>, ops: seq<Op>)
    requires LegalRun(zones, EmptyPool, ops)
    ensures Safe(zones, Run(zones, EmptyPool, ops))
  {
    EmptyIsFree();
    RunKeepsSafe(zones, EmptyPool, ops);
  }

  /** Two runs that end with the same free pages end with the same free blocks, whatever happened in between. */
  lemma RunsForgetHistory(zones: iset<nat>, ops1: seq<Op>, ops2: seq<Op>)
    requires LegalRun(zones, EmptyPool, ops1) && LegalRun(zones, EmptyPool, ops2)
    requires FreeSet(Run(zones, EmptyPool, ops1).lists) == FreeSet(Run(zones, EmptyPool, ops2).lists)
    ensures forall o :: 0 <= o < N_ORDERS ==>
      multiset(Run(zones, EmptyPool, ops1).lists[o]) == multiset(Run(zones, EmptyPool, ops2).lists[o])
  {
    RunsAreSafe(zones, ops1);
    RunsAreSafe(zones, ops2);
    HistoryIndependence(Run(zones, EmptyPool, ops1).lists, Run(zones, EmptyPool, ops2).lists);
  }

  /** In a reachable state a request fails exactly when no aligned run of its size is free. */
  lemma ReachableAllocIsComplete(zones: iset<nat>, ops: seq<Op>, o: nat)
    requires LegalRun(zones, EmptyPool, ops) && o <= MAX_ORDER
    ensures var l := Run(zones, EmptyPool, ops).lists;
      AllocSpec(l, o).1.None? <==> !exists p: nat :: Aligned(p, o) && RunFree(FreeSet(l), p, o)
  {
    RunsAreSafe(zones, ops);
    AllocFailsOnlyWhenItMust(Run(zones, EmptyPool, ops).lists, o);
  }
}
