/**
 The page-table walker on physical memory: `map_page`, `unmap_page`,
 `is_mapped`, `virt_to_pfn`, table creation and the boot-time set-up of the
 kernel's upper half.
 */
module Mapper {
  import opened Collections
  import opened Bits
  import opened BuddySpec
  import opened BuddyTheorems
  import opened Buddy
  import opened EarlyAlloc
  import opened PageTable
  import opened PageForest
  import opened PageRuns

  /* ---- the read-only walks, on any memory ---- */

  /** `is_mapped` from table `t` down. */
  function IsMappedFrom(mem: map<nat, seq<nat>>, t: nat, level: nat, v: nat): bool
    decreases level
  {
    var w := Entry(mem, t, Index(level, v));
    if level == 0 then Present(w)
    else if Ps(w) then true
    else Present(w) && IsMappedFrom(mem, FrameOf(w), level - 1, v)
  }

  /** `__virt_offset`: the source multiplies by 0x1000, not by 512, for each level. */
  function VirtOffset(level: nat, virt: nat): nat {
    virt % PageSpan(level)
  }

  function PageSpan(level: nat): (s: nat)
    ensures s > 0
  {
    if level == 0 then 0x1000 else 0x1000 * PageSpan(level - 1)
  }

  /** Conversion to the source's `int` result. */
  function ToInt32(x: nat): (r: int)
    ensures -0x8000_0000 <= r < 0x8000_0000 && (x - r) % 0x1_0000_0000 == 0
  {
    (x + 0x8000_0000) % 0x1_0000_0000 - 0x8000_0000
  }

  /** `virt_to_pfn` from table `t` down; a huge page's address is returned unshifted, as in the source. */
  function VirtToPfnFrom(mem: map<nat, seq<nat>>, t: nat, level: nat, virt: nat): int
    decreases level
  {
    var w := Entry(mem, t, Index(level, Vpn(virt)));
    if level == 0 then ToInt32((FrameOf(w) * 4096 + VirtOffset(0, virt)) / 4096)
    else if Ps(w) then ToInt32(FrameOf(w) * 4096 + VirtOffset(level, virt))
    else if Present(w) then VirtToPfnFrom(mem, FrameOf(w), level - 1, virt)
    else 0
  }

  /** `is_mapped` answers exactly whether the page has a translation. */
  lemma {:induction false} IsMappedIsTranslated(f: Forest, t: nat, level: nat, v: nat)
    requires Core(f) && OnWalk(f, t, level, v) && level <= 3
    ensures IsMappedFrom(f.mem, t, level, v) == Lookup(f.mem, t, level, v).Some?
    decreases level
  {
    hide Core;
    IndexBound(level, v);
    var w := Entry(f.mem, t, Index(level, v));
    if level == 0 {
    } else {
      CoreNoHuge(f, t, Index(level, v));
      if Present(w) {
        CoreEdges(f);
        StepOnWalk(f, t, level, v);
        IsMappedIsTranslated(f, FrameOf(w), level - 1, v);
      }
    }
  }

  /** The leaf word on the walk of `v`, present or not, if every level above it is present. */
  function LeafAt(mem: map<nat, seq<nat>>, t: nat, level: nat, v: nat): Option<nat>
    decreases level
  {
    var w := Entry(mem, t, Index(level, v));
    if level == 0 then Some(w) else if Present(w) then LeafAt(mem, FrameOf(w), level - 1, v) else None
  }

  /** A translation is a present leaf. */
  lemma {:induction false} LookupIsPresentLeaf(mem: map<nat, seq<nat>>, t: nat, level: nat, v: nat)
    ensures Lookup(mem, t, level, v) ==
      match LeafAt(mem, t, level, v)
      case None => None
      case Some(w) => if Present(w) then Some(w) else None
    decreases level
  {
    var w := Entry(mem, t, Index(level, v));
    if level == 0 {
    } else if Present(w) {
      LookupIsPresentLeaf(mem, FrameOf(w), level - 1, v);
    }
  }

  /** `virt_to_pfn` on every address: 0 where an upper level is absent, else the leaf's frame as an `int`. */
  lemma {:induction false} VirtToPfnOfLeaf(f: Forest, t: nat, level: nat, virt: nat)
    requires Core(f) && OnWalk(f, t, level, Vpn(virt)) && level <= 3
    ensures VirtToPfnFrom(f.mem, t, level, virt) ==
      match LeafAt(f.mem, t, level, Vpn(virt))
      case None => 0
      case Some(w) => ToInt32(FrameOf(w))
    decreases level
  {
    hide Core;
    var v := Vpn(virt);
    IndexBound(level, v);
    var w := Entry(f.mem, t, Index(level, v));
    if level == 0 {
    } else {
      CoreNoHuge(f, t, Index(level, v));
      if Present(w) {
        CoreEdges(f);
        StepOnWalk(f, t, level, v);
        VirtToPfnOfLeaf(f, FrameOf(w), level - 1, virt);
      }
    }
  }

  lemma LeafCleared(f: Forest, t: nat, v: nat, u: nat, x: nat)
    requires Shapes(f) && RootsOk(f) && TagsInjective(f) && OnWalk(f, t, 0, v) && OnWalk(f, u, 0, x)
    ensures LeafAt(Write(f.mem, t, Index(0, v), 0), u, 0, x) ==
      if x == v && SlotSpace(f, u, Index(0, v)) == SlotSpace(f, t, Index(0, v)) then Some(0)
      else LeafAt(f.mem, u, 0, x)
  {
    LeafIs(f, t, Index(0, v), 0);
    assert t !in f.owner && u !in f.owner;
    assert f.tags[t] == f.tags[u] ==> t == u;
  }

  lemma LeafClearedCore(f: Forest, t: nat, v: nat, u: nat, x: nat)
    requires Core(f) && OnWalk(f, t, 0, v) && OnWalk(f, u, 0, x)
    ensures LeafAt(Write(f.mem, t, Index(0, v), 0), u, 0, x) ==
      if x == v && SlotSpace(f, u, Index(0, v)) == SlotSpace(f, t, Index(0, v)) then Some(0)
      else LeafAt(f.mem, u, 0, x)
  {
    LeafCleared(f, t, v, u, x);
  }

  /** `unmap_page` clears the whole leaf word, where there is a leaf, of exactly one page of one space. */
  lemma {:induction false} UnmapClearsLeaf(f: Forest, t: nat, level: nat, v: nat, u: nat, x: nat)
    requires Core(f) && OnWalk(f, t, level, v) && OnWalk(f, u, level, x) && level <= 3
    ensures LeafAt(UnmapWalk(f.mem, t, level, v), u, level, x) ==
      if x == v && SlotSpace(f, u, Index(level, v)) == SlotSpace(f, t, Index(level, v)) && LeafAt(f.mem, u, level, x).Some? then Some(0)
      else LeafAt(f.mem, u, level, x)
    decreases level
  {
    hide Core;
    if level == 0 {
      LeafClearedCore(f, t, v, u, x);
    } else {
      var i, j := Index(level, v), Index(level, x);
      var c, d := FrameOf(Entry(f.mem, t, i)), FrameOf(Entry(f.mem, u, j));
      CoreEdges(f);
      UnmapKeepsCore(f, t, level, v);
      SameSlotPresent(f, t, u, level, v);
      if Present(Entry(f.mem, t, i)) && Present(Entry(f.mem, u, j)) {
        StepOnWalk(f, t, level, v);
        StepOnWalk(f, u, level, x);
        ChildSlots(f, t, i, c, Index(level - 1, v));
        ChildSlots(f, u, j, d, Index(level - 1, v));
        UnmapClearsLeaf(f, c, level - 1, v, d, x);
      }
    }
  }

  /** After an unmap `virt_to_pfn` returns 0 for the page under every root of its space, and what it did for every other page. */
  lemma UnmapClearsPfn(kroot: nat, s: Vm, op: Op, r: nat, virt: nat)
    requires VmInv(kroot, s) && op.Unmap? && Legal(s, op) && r in s.forest.owner
    ensures kroot in s.forest.owner && kroot in s.forest.mem
    ensures VirtToPfnFrom(Step(kroot, s, op).forest.mem, r, 3, virt) ==
      if Vpn(virt) == op.page && SpaceOf(s.forest, r, op.page) == SpaceOf(s.forest, op.root, op.page) then 0
      else VirtToPfnFrom(s.forest.mem, r, 3, virt)
  {
    hide Core, Fresh, LeafAt, VirtToPfnFrom, UnmapWalk, SlotSpace, SameTables;
    var f, g := s.forest, s.forest.(mem := UnmapWalk(s.forest.mem, op.root, 3, op.page));
    CoreRoots(f);
    RootOnWalk(f, op.root, op.page);
    RootOnWalk(f, r, Vpn(virt));
    UnmapKeepsCore(f, op.root, 3, op.page);
    CoreRoots(g);
    RootOnWalk(g, r, Vpn(virt));
    assert FrameOf(0) == 0;
    UnmapClearsLeaf(f, op.root, 3, op.page, r, Vpn(virt));
    VirtToPfnOfLeaf(f, r, 3, virt);
    VirtToPfnOfLeaf(g, r, 3, virt);
  }

  /** `virt_to_pfn` returns the translation of every mapped page whose frame number fits an `int`. */
  lemma VirtToPfnIsTranslation(f: Forest, t: nat, level: nat, virt: nat)
    requires Core(f) && OnWalk(f, t, level, Vpn(virt)) && level <= 3
    ensures var r := Lookup(f.mem, t, level, Vpn(virt));
      r.Some? && FrameOf(r.value) < 0x8000_0000 ==> VirtToPfnFrom(f.mem, t, level, virt) == FrameOf(r.value)
  {
    hide Core;
    VirtToPfnOfLeaf(f, t, level, virt);
    LookupIsPresentLeaf(f.mem, t, level, Vpn(virt));
  }

  lemma UnmapUnfold(mem: map<nat, seq<nat>>, t: nat, level: nat, v: nat)
    ensures var i := Index(level, v); var w := Entry(mem, t, i);
      UnmapWalk(mem, t, level, v) ==
        if level == 0 then Write(mem, t, i, 0) else if Present(w) then UnmapWalk(mem, FrameOf(w), level - 1, v) else mem
  {
  }

  lemma CoreNoHuge(f: Forest, t: nat, i: nat)
    requires Core(f) && t in f.tags && f.tags[t].level >= 1 && i < ENTRIES
    ensures !Ps(Entry(f.mem, t, i))
  {
  }

  lemma NewRootFacts(kroot: nat, s: Vm)
    requires VmInv(kroot, s) && Legal(s, NewTable)
    ensures var p := AllocSpec(s.lists, 0).1.value;
      kroot in s.forest.mem && kroot in s.forest.owner && p != kroot && p !in s.forest.owner
      && p in Step(kroot, s, NewTable).forest.owner
  {
    hide Core, Fresh, Upper;
    NewTableStep(kroot, s);
  }

  lemma CoreRow(f: Forest, t: nat)
    requires Core(f) && t in f.tags
    ensures t in f.mem && |f.mem[t]| == ENTRIES
  {
  }

  /** `bump_page` returned `p` as one of the pages counted from `from` up to `count`. */
  ghost predicate HandedOut(regions: seq<Zone>, from: nat, count: nat, p: nat) {
    exists k: nat :: from <= k < count && PageAt(regions, k) == Some(p)
  }

  /** Every table is one from boot or was handed out since; pages still to come are no boot tables. */
  ghost predicate TablesFrom(tables: set<nat>, boot: set<nat>, regions: seq<Zone>, from: nat, count: nat) {
    && from <= count
    && boot <= tables
    && (forall p :: p in tables ==> p in boot || HandedOut(regions, from, count, p))
    && (forall k: nat :: from <= k && PageAt(regions, k).Some? ==> PageAt(regions, k).value !in boot)
  }

  lemma HandedOutNext(regions: seq<Zone>, from: nat, count: nat, p: nat)
    requires from <= count && (HandedOut(regions, from, count, p) || PageAt(regions, count) == Some(p))
    ensures HandedOut(regions, from, count + 1, p)
  {
    hide PageAt;
    if HandedOut(regions, from, count, p) {
      var k: nat :| from <= k < count && PageAt(regions, k) == Some(p);
      assert from <= k < count + 1 && PageAt(regions, k) == Some(p);
    }
  }

  lemma NotYetHandedOut(regions: seq<Zone>, from: nat, count: nat, p: nat)
    requires RegionsDisjoint(regions) && PageAt(regions, count) == Some(p)
    ensures !HandedOut(regions, from, count, p)
  {
    hide PageAt, RegionsDisjoint;
    if HandedOut(regions, from, count, p) {
      var k: nat :| from <= k < count && PageAt(regions, k) == Some(p);
      PageAtInjective(regions, k, count);
    }
  }

  lemma NextBumpPage(tables: set<nat>, boot: set<nat>, regions: seq<Zone>, from: nat, count: nat)
    requires TablesFrom(tables, boot, regions, from, count) && RegionsDisjoint(regions) && Below4G(regions)
    requires PageAt(regions, count).Some?
    ensures var p := PageAt(regions, count).value;
      p < 0x10_0000 && p !in tables && p !in boot && TablesFrom(tables + {p}, boot, regions, from, count + 1)
  {
    hide PageAt, HandedOut, RegionsDisjoint, Below4G;
    PageAtLow(regions, count);
    var p := PageAt(regions, count).value;
    NotYetHandedOut(regions, from, count, p);
    forall q | q in tables + {p} ensures q in boot || HandedOut(regions, from, count + 1, q) {
      if q !in boot {
        HandedOutNext(regions, from, count, q);
      }
    }
  }

  ghost predicate SameTranslations(mem: map<nat, seq<nat>>, mem': map<nat, seq<nat>>, r: nat) {
    forall x: nat :: x < TWO36 ==> Translate(mem', r, x) == Translate(mem, r, x)
  }

  lemma InstallInRoot(l: Lists, f: Forest, r: nat, i: nat, p: nat)
    requires Core(f) && Fresh(l, f) && FreeSet(l) == iset{} && r in f.owner && i < ENTRIES && Entry(f.mem, r, i) == 0
    requires p !in f.mem && p < 0x10_0000
    ensures var g := Install(f, r, i, p);
      && Core(g) && Fresh(l, g) && g.owner == f.owner && Entry(g.mem, r, i) == TableWord(p) && Present(TableWord(p))
      && (forall j: nat :: j != i ==> Entry(g.mem, r, j) == Entry(f.mem, r, j))
      && SameTranslations(f.mem, g.mem, r)
  {
    hide Core, Inv, FreeSet, Install;
    CoreRoots(f);
    CoreKeys(f);
    CoreEdges(f);
    assert Gap(f, r, i);
    InstallCore(f, r, i, p);
    WordFacts(p, Flags(false, false, false, false));
    var g := Install(f, r, i, p);
    forall x: nat | x < TWO36 ensures Translate(g.mem, r, x) == Translate(f.mem, r, x) {
      RootOnWalk(f, r, x);
      InstallLookup(f, g, r, i, p, r, 3, x);
    }
    assert Fresh(l, g);
  }

  /** The kernel root made at boot: a copy of the only root, whose upper half is full. */
  lemma CopyAtBoot(l: Lists, f: Forest, r: nat, p: nat)
    requires Core(f) && Fresh(l, f) && FreeSet(l) == iset{} && f.owner.Keys == {r} && p !in f.mem && p < 0x10_0000
    requires forall i: nat :: 256 <= i < ENTRIES ==> Present(Entry(f.mem, r, i))
    ensures r in f.mem && r in f.owner
    ensures var g := CopyRoot(f, r, p);
      && Core(g) && Fresh(l, g) && Upper(g, p) && g.owner.Keys == {r, p}
      && SameTranslations(f.mem, g.mem, r)
      && (forall x: nat :: x < TWO36 ==> Translate(g.mem, p, x) == Translate(f.mem, r, x))
  {
    hide Core, Inv, FreeSet, CopyOwner;
    CoreRoots(f);
    CoreKeys(f);
    CoreEdges(f);
    CopyCore(f, r, p);
    var g := CopyRoot(f, r, p);
    forall x: nat | x < TWO36
      ensures Translate(g.mem, r, x) == Translate(f.mem, r, x) && Translate(g.mem, p, x) == Translate(f.mem, r, x)
    {
      RootOnWalk(f, r, x);
      CopyLookup(f, g, r, p, r, 3, x);
      CopyLookupNew(f, g, r, p, x);
    }
  }

  /** A word of the upper half before and after the boot loop: kept if it was set, else a writable table of its own. */
  predicate Filled(was: nat, now: nat) {
    if was != 0 then now == was
    else FrameOf(now) < TWO51 && now == TableWord(FrameOf(now)) && CarriesFlags(now, Flags(true, false, false, false))
  }

  class PageMapper {
    const buddy: BuddyAllocator
    var mem: map<nat, seq<nat>>
    var kroot: nat
    ghost var tags: map<nat, Tag>
    ghost var owner: map<nat, seq<nat>>

    ghost function Repr(): set<object> {
      {this} + buddy.Repr()
    }

    ghost function Tables(): Forest
      reads this
    {
      Forest(mem, tags, owner)
    }

    /** Well-formed tables before the upper half is set up. */
    ghost predicate ValidTables()
      reads Repr()
    {
      && this !in buddy.Repr()
      && buddy.Valid()
      && Core(Tables()) && Fresh(buddy.Lists(), Tables())
    }

    ghost predicate Valid()
      reads Repr()
    {
      ValidTables() && Upper(Tables(), kroot)
    }

    ghost function State(): Vm
      reads this, buddy.Repr()
      requires buddy.Valid()
    {
      Vm(buddy.Lists(), Tables())
    }

    /** The tables the boot loader left, with `boot` in CR3. */
    constructor (buddy: BuddyAllocator, bootTables: map<nat, seq<nat>>, boot: nat, ghost tags: map<nat, Tag>, ghost owner: map<nat, seq<nat>>)
      requires buddy.Valid()
      requires Core(Forest(bootTables, tags, owner)) && Fresh(buddy.Lists(), Forest(bootTables, tags, owner))
      ensures ValidTables() && this.buddy == buddy && kroot == boot && Tables() == Forest(bootTables, tags, owner)
      ensures fresh(this)
    {
      this.buddy, this.mem, this.kroot, this.tags, this.owner := buddy, bootTables, boot, tags, owner;
    }

    /** The table page in slot `i` of `t`, made and hooked in if there is none. */
    method NextTable(t: nat, level: nat, ghost v: nat, i: nat, ghost word: nat) returns (child: nat)
      requires ValidTables() && 1 <= level <= 3 && OnWalk(Tables(), t, level, v) && i == Index(level, v)
      requires MapWalk(buddy.Lists(), Tables(), t, level, v, word).Some?
      modifies Repr()
      ensures ValidTables() && OnWalk(Tables(), child, level - 1, v) && kroot == old(kroot)
      ensures MapWalk(buddy.Lists(), Tables(), child, level - 1, v, word) == old(MapWalk(buddy.Lists(), Tables(), t, level, v, word))
    {
      hide Core, Fresh, MapWalk, Inv, FreeSet, BuddyAllocator.ValidExcept;
      ghost var l, f := buddy.Lists(), Tables();
      IndexBound(level, v);
      CoreRow(f, t);
      GrowStep(l, f, t, level, v, word);
      GrowDescend(l, f, t, level, v, word);
      var value := mem[t][i];
      if Present(value) {
        return FrameOf(value);
      }
      var page := buddy.AllocPages(0, BUDDY_ZERO);
      child := page.value;
      GrowPages(l, f, t, level, v);
      WordFacts(child, Flags(false, false, false, false));
      tags := Install(f, t, i, child).tags;
      mem := Write(mem, t, i, TableWord(child))[child := ZeroPage()];
    }

    method MapPage(root: nat, frame: nat, virt: nat, flags: Flags)
      requires Valid() && Legal(State(), Map(root, Vpn(virt), frame, flags))
      modifies Repr()
      ensures Valid() && kroot == old(kroot) && old(kroot in owner && kroot in mem)
      ensures State() == Step(kroot, old(State()), Map(root, Vpn(virt), frame, flags))
    {
      hide Core, Fresh, MapWalk, LeafWord, BuddyAllocator.ValidExcept;
      ghost var v, word := Vpn(virt), LeafWord(frame, flags);
      ghost var op := Map(root, v, frame, flags);
      MapStep(kroot, State(), op);
      CoreRoots(Tables());
      RootOnWalk(Tables(), root, v);
      var level, t := 3, root;
      GetIndexIsDigit(level, virt);
      var i := GetIndex(level, virt);
      while level > 0
        invariant ValidTables() && level <= 3 && OnWalk(Tables(), t, level, v) && kroot == old(kroot)
        invariant i == Index(level, v)
        invariant MapWalk(buddy.Lists(), Tables(), t, level, v, word) == old(MapWalk(buddy.Lists(), Tables(), root, 3, v, word))
      {
        t := NextTable(t, level, v, i, word);
        level := level - 1;
        GetIndexIsDigit(level, virt);
        i := GetIndex(level, virt);
      }
      MapWalkLeaf(buddy.Lists(), Tables(), t, v, word);
      CoreRow(Tables(), t);
      IndexBound(0, v);
      mem := Write(mem, t, i, LeafWord(frame, flags));
    }
  
    method UnmapPage(root: nat, virt: nat)
      requires Valid() && Legal(State(), Unmap(root, Vpn(virt)))
      modifies this
      ensures Valid() && kroot == old(kroot) && old(kroot in owner && kroot in mem)
      ensures State() == Step(kroot, old(State()), Unmap(root, Vpn(virt)))
    {
      hide Core, Fresh, UnmapWalk, BuddyAllocator.ValidExcept;
      ghost var v, f := Vpn(virt), Tables();
      UnmapStep(kroot, State(), Unmap(root, v));
      CoreRoots(f);
      RootOnWalk(f, root, v);
      CoreEdges(f);
      var level, t := 3, root;
      GetIndexIsDigit(level, virt);
      var i := GetIndex(level, virt);
      while level > 0
        invariant level <= 3 && OnWalk(f, t, level, v) && i == Index(level, v)
        invariant Valid() && Tables() == f && kroot == old(kroot)
        invariant UnmapWalk(mem, t, level, v) == UnmapWalk(mem, root, 3, v)
      {
        CoreRow(f, t);
        IndexBound(level, v);
        UnmapUnfold(mem, t, level, v);
        var value := mem[t][i];
        if !Present(value) {
          return;
        }
        StepOnWalk(f, t, level, v);
        t := FrameOf(value);
        level := level - 1;
        GetIndexIsDigit(level, virt);
        i := GetIndex(level, virt);
      }
      UnmapUnfold(mem, t, 0, v);
      mem := Write(mem, t, i, 0);
    }

    method IsMapped(root: nat, virt: nat) returns (mapped: bool)
      requires Valid() && root in owner
      ensures mapped == Translate(mem, root, Vpn(virt)).Some?
    {
      hide Core, Fresh, BuddyAllocator.ValidExcept;
      ghost var v, f := Vpn(virt), Tables();
      CoreRoots(f);
      RootOnWalk(f, root, v);
      CoreEdges(f);
      IsMappedIsTranslated(f, root, 3, v);
      var level, t := 3, root;
      GetIndexIsDigit(level, virt);
      var i := GetIndex(level, virt);
      while level > 0
        invariant level <= 3 && OnWalk(f, t, level, v) && i == Index(level, v)
        invariant IsMappedFrom(mem, t, level, v) == IsMappedFrom(mem, root, 3, v)
      {
        CoreRow(f, t);
        IndexBound(level, v);
        var value := mem[t][i];
        if Ps(value) {
          return true;
        }
        if !Present(value) {
          return false;
        }
        StepOnWalk(f, t, level, v);
        t := FrameOf(value);
        level := level - 1;
        GetIndexIsDigit(level, virt);
        i := GetIndex(level, virt);
      }
      CoreRow(f, t);
      IndexBound(0, v);
      return Present(mem[t][i]);
    }

    /** `cr3` is the root the CPU runs on. */
    method VirtToPfn(cr3: nat, virt: nat) returns (pfn: int)
      requires Valid() && cr3 in owner
      ensures match LeafAt(mem, cr3, 3, Vpn(virt))
        case None => pfn == 0
        case Some(w) => pfn == ToInt32(FrameOf(w))
      ensures var r := Translate(mem, cr3, Vpn(virt)); r.Some? && r.value < 0x8000_0000 ==> pfn == r.value
    {
      hide Core, Fresh, BuddyAllocator.ValidExcept;
      ghost var v, f := Vpn(virt), Tables();
      CoreRoots(f);
      RootOnWalk(f, cr3, v);
      CoreEdges(f);
      VirtToPfnOfLeaf(f, cr3, 3, virt);
      VirtToPfnIsTranslation(f, cr3, 3, virt);
      var level, t := 3, cr3;
      GetIndexIsDigit(level, virt);
      var i := GetIndex(level, virt);
      while level > 0
        invariant level <= 3 && OnWalk(f, t, level, v) && i == Index(level, v)
        invariant VirtToPfnFrom(mem, t, level, virt) == VirtToPfnFrom(mem, cr3, 3, virt)
      {
        CoreRow(f, t);
        IndexBound(level, v);
        var value := mem[t][i];
        if Ps(value) {
          return ToInt32(FrameOf(value) * 4096 + VirtOffset(level, virt));
        }
        if !Present(value) {
          return 0;
        }
        StepOnWalk(f, t, level, v);
        t := FrameOf(value);
        level := level - 1;
        GetIndexIsDigit(level, virt);
        i := GetIndex(level, virt);
      }
      CoreRow(f, t);
      IndexBound(0, v);
      return ToInt32((FrameOf(mem[t][i]) * 4096 + VirtOffset(0, virt)) / 4096);
    }

    /** `new_page_table`: the new root's page. */
    method NewPageTable() returns (root: nat)
      requires Valid() && Legal(State(), NewTable)
      modifies Repr()
      ensures Valid() && kroot == old(kroot) && old(kroot in owner && kroot in mem)
      ensures State() == Step(kroot, old(State()), NewTable)
      ensures root in owner && root !in old(owner)
    {
      hide Core, Fresh, Upper, Copied, SpacesKept, AllocSpec, CopyOwner, BuddyAllocator.ValidExcept;
      NewTableStep(kroot, State());
      NewRootFacts(kroot, State());
      CoreRoots(Tables());
      ghost var g := Step(kroot, State(), NewTable).forest;
      var page := buddy.AllocPages(0, BUDDY_ZERO);
      root := page.value;
      mem := mem[root := ZeroPage()];
      mem := mem[root := mem[kroot]];
      tags, owner := g.tags, g.owner;
      assert Tables() == g;
      assert VmInv(kroot, Vm(buddy.Lists(), g));
    }
  
    /** Slot `i` of the root gets a fresh zeroed table if it is empty; no translation changes. */
    method FillSlot(bump: BumpAllocator, i: nat, ghost boot: set<nat>, ghost from: nat)
      requires ValidTables() && kroot in owner && FreeSet(buddy.Lists()) == iset{} && i < ENTRIES && bump !in Repr()
      requires Below4G(bump.regions) && RegionsDisjoint(bump.regions)
      requires PageAt(bump.regions, bump.bumpAllocated).Some?
      requires TablesFrom(mem.Keys, boot, bump.regions, from, bump.bumpAllocated)
      requires Entry(mem, kroot, i) == 0 || Present(Entry(mem, kroot, i))
      modifies this, bump
      ensures ValidTables() && TablesFrom(mem.Keys, boot, bump.regions, from, bump.bumpAllocated)
      ensures kroot == old(kroot) && owner == old(owner)
      ensures old(bump.bumpAllocated) <= bump.bumpAllocated <= old(bump.bumpAllocated) + 1
      ensures Present(Entry(mem, kroot, i)) && Filled(old(Entry(mem, kroot, i)), Entry(mem, kroot, i))
      ensures forall j: nat :: j != i ==> Entry(mem, kroot, j) == old(Entry(mem, kroot, j))
      ensures SameTranslations(old(mem), mem, kroot)
    {
      hide Core, Inv, FreeSet, Translate, PageAt, TablesFrom, RegionsDisjoint, CarriesFlags;
      CoreRoots(Tables());
      CoreRow(Tables(), kroot);
      if mem[kroot][i] != 0 {
        return;
      }
      NextBumpPage(mem.Keys, boot, bump.regions, from, bump.bumpAllocated);
      var page := bump.BumpPage();
      var p := page.value;
      InstallInRoot(buddy.Lists(), Tables(), kroot, i, p);
      WordBits(p, Flags(true, false, false, false));
      tags := Install(Tables(), kroot, i, p).tags;
      mem := Write(mem, kroot, i, TableWord(p))[p := ZeroPage()];
      assert mem.Keys == old(mem.Keys) + {p};
    }

    /** The loop of `kernel_top_pgt_init` over the upper half. */
    method FillUpper(bump: BumpAllocator)
      requires ValidTables() && kroot in owner && FreeSet(buddy.Lists()) == iset{} && bump !in Repr()
      requires Below4G(bump.regions) && RegionsDisjoint(bump.regions)
      requires PageAt(bump.regions, bump.bumpAllocated + 256).Some?
      requires TablesFrom(mem.Keys, mem.Keys, bump.regions, bump.bumpAllocated, bump.bumpAllocated)
      requires forall i: nat :: 256 <= i < ENTRIES ==> Entry(mem, kroot, i) == 0 || Present(Entry(mem, kroot, i))
      modifies this, bump
      ensures ValidTables() && kroot == old(kroot) && owner == old(owner)
      ensures TablesFrom(mem.Keys, old(mem.Keys), bump.regions, old(bump.bumpAllocated), bump.bumpAllocated)
      ensures bump.bumpAllocated <= old(bump.bumpAllocated) + 256
      ensures forall j: nat :: 256 <= j < ENTRIES ==>
        Present(Entry(mem, kroot, j)) && Filled(old(Entry(mem, kroot, j)), Entry(mem, kroot, j))
      ensures forall j: nat :: j < 256 ==> Entry(mem, kroot, j) == old(Entry(mem, kroot, j))
      ensures SameTranslations(old(mem), mem, kroot)
    {
      hide Core, Inv, FreeSet, Translate, PageAt, TablesFrom, RegionsDisjoint, Filled;
      ghost var boot, from := mem.Keys, bump.bumpAllocated;
      for i := 256 to ENTRIES
        invariant ValidTables() && TablesFrom(mem.Keys, boot, bump.regions, from, bump.bumpAllocated)
        invariant kroot == old(kroot) && owner == old(owner) && bump.bumpAllocated <= from + (i - 256)
        invariant forall j: nat :: 256 <= j < i ==>
          Present(Entry(mem, kroot, j)) && Filled(old(Entry(mem, kroot, j)), Entry(mem, kroot, j))
        invariant forall j: nat :: i <= j < ENTRIES ==> Entry(mem, kroot, j) == old(Entry(mem, kroot, j))
        invariant SameTranslations(old(mem), mem, kroot)
        invariant forall j: nat :: j < 256 ==> Entry(mem, kroot, j) == old(Entry(mem, kroot, j))
      {
        PageAtMono(bump.regions, bump.bumpAllocated, from + 256);
        FillSlot(bump, i, boot, from);
      }
    }

    /** `kernel_top_pgt_init`, run on the boot loader's tables before the buddy allocator exists. */
    method KernelTopPgtInit(bump: BumpAllocator)
      requires ValidTables() && owner.Keys == {kroot} && FreeSet(buddy.Lists()) == iset{} && bump !in Repr()
      requires Below4G(bump.regions) && RegionsDisjoint(bump.regions)
      requires PageAt(bump.regions, bump.bumpAllocated + 256).Some?
      requires TablesFrom(mem.Keys, mem.Keys, bump.regions, bump.bumpAllocated, bump.bumpAllocated)
      requires forall i: nat :: 256 <= i < ENTRIES ==> Entry(mem, kroot, i) == 0 || Present(Entry(mem, kroot, i))
      modifies this, bump
      ensures Valid() && owner.Keys == {old(kroot), kroot} && kroot !in old(mem)
      ensures SameTranslations(old(mem), mem, old(kroot))
      ensures forall x: nat :: x < TWO36 ==> Translate(mem, kroot, x) == old(Translate(mem, kroot, x))
      ensures TablesFrom(mem.Keys, old(mem.Keys), bump.regions, old(bump.bumpAllocated), bump.bumpAllocated)
      ensures forall j: nat :: j < 256 ==> Entry(mem, kroot, j) == old(Entry(mem, kroot, j))
      ensures forall j: nat :: 256 <= j < ENTRIES ==> Filled(old(Entry(mem, kroot, j)), Entry(mem, kroot, j))
    {
      hide Core, Inv, FreeSet, Translate, PageAt, TablesFrom, RegionsDisjoint, Filled;
      ghost var boot, from := mem.Keys, bump.bumpAllocated;
      FillUpper(bump);
      PageAtMono(bump.regions, bump.bumpAllocated, from + 256);
      ghost var tables := mem.Keys;
      NextBumpPage(mem.Keys, boot, bump.regions, from, bump.bumpAllocated);
      var page := bump.BumpPage();
      var p := page.value;
      CopyAtBoot(buddy.Lists(), Tables(), kroot, p);
      ghost var g := CopyRoot(Tables(), kroot, p);
      mem := mem[p := mem[kroot]];
      tags, owner, kroot := g.tags, g.owner, p;
      assert Tables() == g;
      assert mem.Keys == tables + {p};
    }
  }
}
