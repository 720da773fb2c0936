/**
 What map, unmap and table creation do to the forest of page tables.

 `MapWalk` is `map_page`'s descent, allocating missing tables from the buddy
 free lists; `UnmapWalk` is `unmap_page`'s.  The lemmas say that the forest
 stays a forest and that exactly one page of one address space changes its
 translation.
 */
module PageForest {
  import opened Collections
  import opened Bits
  import opened BuddySpec
  import opened BuddyTheorems
  import opened PageTable

  /** Which part of which address space a table page serves. */
  datatype Tag = Tag(space: nat, level: nat, prefix: nat)

  datatype Forest = Forest(mem: map<nat, seq<nat>>, tags: map<nat, Tag>, owner: map<nat, seq<nat>>)

  function Entry(mem: map<nat, seq<nat>>, t: nat, i: nat): nat {
    if t in mem && i < |mem[t]| then mem[t][i] else 0
  }

  function Write(mem: map<nat, seq<nat>>, t: nat, i: nat, w: nat): map<nat, seq<nat>> {
    if t in mem && i < |mem[t]| then
      var row: seq<nat> := mem[t][i := w];
      mem[t := row]
    else mem
  }

  /** The leaf word that the walk from table `t` finds for page `v`, if every level above it is present. */
  function Lookup(mem: map<nat, seq<nat>>, t: nat, level: nat, v: nat): Option<nat>
    decreases level
  {
    var w := Entry(mem, t, Index(level, v));
    if !Present(w) then None else if level == 0 then Some(w) else Lookup(mem, FrameOf(w), level - 1, v)
  }

  function ZeroPage(): (z: seq<nat>)
    ensures |z| == ENTRIES && forall i :: 0 <= i < ENTRIES ==> z[i] == 0
  {
    seq(ENTRIES, _ => 0)
  }

  /** The space that slot `i` of table `t` belongs to. */
  function SlotSpace(f: Forest, t: nat, i: nat): nat {
    if t in f.owner && i < |f.owner[t]| then f.owner[t][i] else if t in f.tags then f.tags[t].space else 0
  }

  function ChildTag(f: Forest, t: nat, i: nat): Tag
    requires t in f.tags && f.tags[t].level >= 1
  {
    Tag(SlotSpace(f, t, i), f.tags[t].level - 1, f.tags[t].prefix * 512 + i)
  }

  /** Hook the zeroed page `p` into slot `i` of table `t`. */
  function Install(f: Forest, t: nat, i: nat, p: nat): Forest {
    Forest(Write(f.mem, t, i, TableWord(p))[p := ZeroPage()],
           if t in f.tags && f.tags[t].level >= 1 then f.tags[p := ChildTag(f, t, i)] else f.tags,
           f.owner)
  }

  /** `map_page` from table `t` down; `None` when the page allocator runs dry on the way. */
  function MapWalk(l: Lists, f: Forest, t: nat, level: nat, v: nat, word: nat): Option<(Lists, Forest)>
    decreases level
  {
    var i := Index(level, v);
    var w := Entry(f.mem, t, i);
    if level == 0 then Some((l, f.(mem := Write(f.mem, t, i, word))))
    else if Present(w) then MapWalk(l, f, FrameOf(w), level - 1, v, word)
    else
      var (l1, r) := AllocSpec(l, 0);
      match r
      case None => None
      case Some(p) => MapWalk(l1, Install(f, t, i, p), p, level - 1, v, word)
  }

  function UnmapWalk(mem: map<nat, seq<nat>>, t: nat, level: nat, v: nat): map<nat, seq<nat>>
    decreases level
  {
    var i := Index(level, v);
    var w := Entry(mem, t, i);
    if level == 0 then Write(mem, t, i, 0)
    else if Present(w) then UnmapWalk(mem, FrameOf(w), level - 1, v)
    else mem
  }

  function CopyOwner(f: Forest, root: nat, p: nat): seq<nat> {
    seq(ENTRIES, (i: nat) => if Present(Entry(f.mem, root, i)) then SlotSpace(f, root, i) else p)
  }

  /** A new root: the words of `root`, whose missing slots become the copy's own. */
  function CopyRoot(f: Forest, root: nat, p: nat): Forest
    requires root in f.mem && root in f.owner
  {
    Forest(f.mem[p := f.mem[root]],
           f.tags[p := Tag(p, 3, 0)],
           f.owner[p := CopyOwner(f, root, p)])
  }

  /* ---- the forest invariant ---- */

  ghost predicate Shapes(f: Forest) {
    && f.mem.Keys == f.tags.Keys
    && (forall t :: t in f.mem ==> |f.mem[t]| == ENTRIES && t < TWO51)
  }

  ghost predicate RootsOk(f: Forest) {
    && (forall t :: t in f.tags ==> f.tags[t].level <= 3 && (f.tags[t].level == 3 <==> t in f.owner) && f.tags[t].space in f.owner)
    && (forall r :: r in f.owner ==> r in f.tags && f.tags[r] == Tag(r, 3, 0) && |f.owner[r]| == ENTRIES)
    && (forall r, i :: r in f.owner && 0 <= i < ENTRIES ==> SlotSpace(f, r, i) in f.owner)
  }

  /** No two table pages serve the same part of a space. */
  ghost predicate TagsInjective(f: Forest) {
    forall t, u :: t in f.tags && u in f.tags && f.tags[t] == f.tags[u] ==> t == u
  }

  /** Slot `i` of table `t` points to table `u`. */
  ghost predicate Points(f: Forest, t: nat, i: nat, u: nat) {
    && t in f.tags && f.tags[t].level >= 1 && i < ENTRIES
    && Present(Entry(f.mem, t, i)) && FrameOf(Entry(f.mem, t, i)) == u
  }

  ghost predicate Edges(f: Forest) {
    forall t, i, u {:trigger Points(f, t, i, u)} :: Points(f, t, i, u) ==>
      u in f.tags && f.tags[u] == ChildTag(f, t, i)
  }

  /** No word above the leaves carries the huge-page bit. */
  ghost predicate NoHuge(f: Forest) {
    forall t: nat, i: nat :: t in f.tags && f.tags[t].level >= 1 && i < ENTRIES ==> !Ps(Entry(f.mem, t, i))
  }

  ghost predicate Gap(f: Forest, t: nat, i: nat) {
    t in f.tags && f.tags[t].level >= 1 && i < ENTRIES && !Present(Entry(f.mem, t, i))
  }

  /** Nothing serves the part that an empty slot would. */
  ghost predicate Gaps(f: Forest) {
    forall t, i, u :: Gap(f, t, i) && u in f.tags ==> f.tags[u] != ChildTag(f, t, i)
  }

  ghost predicate HasParent(f: Forest, u: nat) {
    exists t, i :: Points(f, t, i, u)
  }

  /** Every table but a root hangs from some slot. */
  ghost predicate Parents(f: Forest) {
    forall u :: u in f.tags && f.tags[u].level < 3 ==> HasParent(f, u)
  }

  /** Roots share a slot's space only if they hold the same present word. */
  ghost predicate Sharing(f: Forest) {
    forall r, s, i :: r in f.owner && s in f.owner && r != s && 0 <= i < ENTRIES && SlotSpace(f, r, i) == SlotSpace(f, s, i)
      ==> Entry(f.mem, r, i) == Entry(f.mem, s, i) && Present(Entry(f.mem, r, i))
  }

  ghost predicate Core(f: Forest) {
    Shapes(f) && RootsOk(f) && TagsInjective(f) && Edges(f) && NoHuge(f) && Gaps(f) && Parents(f) && Sharing(f)
  }

  lemma CoreKeys(f: Forest)
    requires Core(f)
    ensures f.mem.Keys == f.tags.Keys && forall t :: t in f.tags ==> f.tags[t].level <= 3
  {
  }

  lemma CoreEdges(f: Forest)
    requires Core(f)
    ensures Edges(f)
  {
  }

  /** Free pages are no tables. */
  ghost predicate Fresh(l: Lists, f: Forest) {
    Inv(l) && (forall t :: t in f.mem ==> t !in FreeSet(l)) && (forall q :: q in FreeSet(l) ==> q < TWO51)
  }

  /** Table `t` lies on the walk of page `v`. */
  ghost predicate OnWalk(f: Forest, t: nat, level: nat, v: nat) {
    t in f.tags && f.tags[t].level == level && f.tags[t].prefix == Prefix(level, v)
  }

  lemma RootOnWalk(f: Forest, r: nat, v: nat)
    requires RootsOk(f) && r in f.owner && v < TWO36
    ensures OnWalk(f, r, 3, v) && Index(3, v) < ENTRIES
  {
    Digits(v);
    PrefixThree(v);
  }

  lemma PrefixThree(v: nat)
    requires v < TWO36
    ensures Prefix(3, v) == 0
  {
    var a := v / 512;
    var b := a / 512;
    assert Prefix(3, v) == Prefix(2, a) == Prefix(1, b) == Prefix(0, b / 512) == b / 512 / 512;
  }

  lemma IndexBound(level: nat, v: nat)
    ensures Index(level, v) < ENTRIES
  {
    if level > 0 {
      IndexBound(level - 1, v / 512);
    }
  }

  /** One step down stays on the walk. */
  lemma StepOnWalk(f: Forest, t: nat, level: nat, v: nat)
    requires Edges(f) && OnWalk(f, t, level, v) && 1 <= level <= 3 && Present(Entry(f.mem, t, Index(level, v)))
    ensures var c := FrameOf(Entry(f.mem, t, Index(level, v)));
      Points(f, t, Index(level, v), c) && OnWalk(f, c, level - 1, v) && f.tags[c] == ChildTag(f, t, Index(level, v))
  {
    PrefixStep(level - 1, v);
    IndexBound(level, v);
    assert Points(f, t, Index(level, v), FrameOf(Entry(f.mem, t, Index(level, v))));
  }

  /* ---- install ---- */

  /** `g` has the tables of `f`, with the same roles, and possibly more. */
  ghost predicate Extends(f: Forest, g: Forest) {
    && g.owner == f.owner
    && f.mem.Keys <= g.mem.Keys
    && (forall t :: t in f.tags ==> t in g.tags && g.tags[t] == f.tags[t])
  }

  lemma SameSlots(f: Forest, g: Forest, t: nat, i: nat)
    requires Extends(f, g) && t in f.tags
    ensures SlotSpace(g, t, i) == SlotSpace(f, t, i)
    ensures f.tags[t].level >= 1 ==> ChildTag(g, t, i) == ChildTag(f, t, i)
  {
  }

  /** `g` is `f` with one more table, `p`, empty, hanging from the slot that was a gap. */
  ghost predicate Installed(f: Forest, g: Forest, t: nat, i: nat, p: nat) {
    && Gap(f, t, i) && p !in f.tags && p < TWO51
    && Extends(f, g) && g.tags.Keys == f.tags.Keys + {p} && g.tags[p] == ChildTag(f, t, i)
    && Entry(g.mem, t, i) == TableWord(p)
    && (forall j: nat :: Entry(g.mem, p, j) == 0)
    && (forall u: nat, j: nat :: u in f.tags && !(u == t && j == i) ==> Entry(g.mem, u, j) == Entry(f.mem, u, j))
  }

  lemma InstallIs(f: Forest, t: nat, i: nat, p: nat)
    requires Shapes(f) && Gap(f, t, i) && p !in f.tags && p < TWO51
    ensures Installed(f, Install(f, t, i, p), t, i, p) && Shapes(Install(f, t, i, p))
  {
  }

  lemma InstallRoots(f: Forest, g: Forest, t: nat, i: nat, p: nat)
    requires RootsOk(f) && Installed(f, g, t, i, p)
    ensures RootsOk(g)
  {
    assert SlotSpace(f, t, i) in f.owner;
    forall r, j | r in g.owner && 0 <= j < ENTRIES ensures SlotSpace(g, r, j) in g.owner {
      SameSlots(f, g, r, j);
    }
  }

  lemma InstallInjective(f: Forest, g: Forest, t: nat, i: nat, p: nat)
    requires TagsInjective(f) && Gaps(f) && Installed(f, g, t, i, p)
    ensures TagsInjective(g)
  {
    forall u | u in f.tags ensures g.tags[u] != g.tags[p] {
      assert Gap(f, t, i);
    }
  }

  lemma InstallEdges(f: Forest, g: Forest, t: nat, i: nat, p: nat)
    requires Edges(f) && Installed(f, g, t, i, p)
    ensures Edges(g)
  {
    WordFacts(p, Flags(false, false, false, false));
    forall u, j, c | Points(g, u, j, c)
      ensures c in g.tags && g.tags[c] == ChildTag(g, u, j)
    {
      if u != p {
        SameSlots(f, g, u, j);
        assert (u == t && j == i) || Points(f, u, j, c);
      }
    }
  }

  lemma InstallNoHuge(f: Forest, g: Forest, t: nat, i: nat, p: nat)
    requires NoHuge(f) && Installed(f, g, t, i, p)
    ensures NoHuge(g)
  {
    WordFacts(p, Flags(false, false, false, false));
    forall u: nat, j: nat | u in g.tags && g.tags[u].level >= 1 && j < ENTRIES ensures !Ps(Entry(g.mem, u, j)) {
      assert u == p || (u == t && j == i) || Entry(g.mem, u, j) == Entry(f.mem, u, j);
    }
  }

  lemma InstallParents(f: Forest, g: Forest, t: nat, i: nat, p: nat)
    requires Parents(f) && Installed(f, g, t, i, p)
    ensures Parents(g)
  {
    WordFacts(p, Flags(false, false, false, false));
    forall u | u in g.tags && g.tags[u].level < 3 ensures HasParent(g, u) {
      if u == p {
        assert Points(g, t, i, p);
      } else {
        var s, j :| Points(f, s, j, u);
        assert Points(g, s, j, u);
      }
    }
  }

  lemma InstallSharing(f: Forest, g: Forest, t: nat, i: nat, p: nat)
    requires RootsOk(f) && Sharing(f) && Installed(f, g, t, i, p)
    ensures Sharing(g)
  {
    forall r, s, j | r in g.owner && s in g.owner && r != s && 0 <= j < ENTRIES && SlotSpace(g, r, j) == SlotSpace(g, s, j)
      ensures Entry(g.mem, r, j) == Entry(g.mem, s, j) && Present(Entry(g.mem, r, j))
    {
      SameSlots(f, g, r, j);
      SameSlots(f, g, s, j);
    }
  }

  lemma InstallGaps(f: Forest, g: Forest, t: nat, i: nat, p: nat)
    requires RootsOk(f) && TagsInjective(f) && Edges(f) && Gaps(f) && Parents(f) && Sharing(f)
    requires Installed(f, g, t, i, p)
    ensures Gaps(g)
  {
    forall u, j, c | Gap(g, u, j) && c in g.tags ensures g.tags[c] != ChildTag(g, u, j) {
      if u == p {
        NoOrphans(f, g, t, i, p, j, c);
      } else {
        OldGap(f, g, t, i, p, u, j, c);
      }
    }
  }

  /** A gap of `f` that is still a gap is not filled by the new table. */
  lemma OldGap(f: Forest, g: Forest, t: nat, i: nat, p: nat, u: nat, j: nat, c: nat)
    requires RootsOk(f) && TagsInjective(f) && Gaps(f) && Sharing(f)
    requires Installed(f, g, t, i, p) && u in f.tags && Gap(g, u, j) && c in g.tags
    ensures g.tags[c] != ChildTag(g, u, j)
  {
    WordFacts(p, Flags(false, false, false, false));
    SameSlots(f, g, u, j);
    assert Gap(f, u, j) && !(u == t && j == i);
    if c == p && ChildTag(f, t, i) == ChildTag(f, u, j) {
      SameChild(f, t, i, u, j);
    }
  }

  /** Two slots with one child tag are the same slot, or are shared and present. */
  lemma SameChild(f: Forest, t: nat, i: nat, u: nat, j: nat)
    requires RootsOk(f) && TagsInjective(f) && Sharing(f)
    requires t in f.tags && u in f.tags && f.tags[t].level >= 1 && f.tags[u].level >= 1 && i < ENTRIES && j < ENTRIES
    requires ChildTag(f, t, i) == ChildTag(f, u, j)
    ensures i == j && (t == u || (t in f.owner && u in f.owner && Entry(f.mem, t, i) == Entry(f.mem, u, i) && Present(Entry(f.mem, t, i))))
  {
    assert f.tags[t].level == f.tags[u].level;
    if f.tags[t].level < 3 {
      assert f.tags[t] == f.tags[u];
    }
  }

  /** Nothing serves a part below a table that was not there. */
  lemma NoOrphans(f: Forest, g: Forest, t: nat, i: nat, p: nat, j: nat, c: nat)
    requires RootsOk(f) && Edges(f) && Parents(f) && Gaps(f)
    requires Installed(f, g, t, i, p) && g.tags[p].level >= 1 && j < ENTRIES && c in g.tags
    ensures g.tags[c] != ChildTag(g, p, j)
  {
    if g.tags[c] == ChildTag(g, p, j) && c != p {
      var s: nat, k: nat :| Points(f, s, k, c);
      assert f.tags[c] == ChildTag(f, s, k);
      SameParent(f, g, s, k, p, j);
      assert false;
    }
  }

  lemma SameParent(f: Forest, g: Forest, s: nat, k: nat, p: nat, j: nat)
    requires s in f.tags && p in g.tags && f.tags[s].level >= 1 && 1 <= g.tags[p].level < 3
    requires (s in f.owner ==> f.tags[s].level == 3) && p !in g.owner
    requires k < ENTRIES && j < ENTRIES && ChildTag(f, s, k) == ChildTag(g, p, j)
    ensures f.tags[s] == g.tags[p]
  {
  }

  /** Hooking in an empty table keeps the forest a forest. */
  lemma InstallCore(f: Forest, t: nat, i: nat, p: nat)
    requires Core(f) && Gap(f, t, i) && p !in f.tags && p < TWO51
    ensures Core(Install(f, t, i, p)) && Installed(f, Install(f, t, i, p), t, i, p)
  {
    var g := Install(f, t, i, p);
    InstallIs(f, t, i, p);
    InstallRoots(f, g, t, i, p);
    InstallInjective(f, g, t, i, p);
    InstallEdges(f, g, t, i, p);
    InstallNoHuge(f, g, t, i, p);
    InstallGaps(f, g, t, i, p);
    InstallParents(f, g, t, i, p);
    InstallSharing(f, g, t, i, p);
  }

  /** ... and changes no translation. */
  lemma {:induction false} InstallLookup(f: Forest, g: Forest, t: nat, i: nat, p: nat, u: nat, level: nat, v: nat)
    requires Edges(f) && Installed(f, g, t, i, p) && OnWalk(f, u, level, v) && level <= 3
    ensures Lookup(g.mem, u, level, v) == Lookup(f.mem, u, level, v)
    decreases level
  {
    WordFacts(p, Flags(false, false, false, false));
    IndexBound(level, v);
    var j := Index(level, v);
    if u == t && j == i {
      assert Entry(g.mem, p, Index(level - 1, v)) == 0;
    } else if Present(Entry(f.mem, u, j)) && level > 0 {
      StepOnWalk(f, u, level, v);
      InstallLookup(f, g, t, i, p, FrameOf(Entry(f.mem, u, j)), level - 1, v);
    }
  }

  /* ---- leaf writes ---- */

  /** `g` differs from `f` in words of level-0 tables only. */
  ghost predicate SameTables(f: Forest, g: Forest) {
    && Shapes(g) && g.tags == f.tags && g.owner == f.owner
    && (forall u: nat, j: nat :: u in f.tags && f.tags[u].level >= 1 ==> Entry(g.mem, u, j) == Entry(f.mem, u, j))
  }

  lemma SameTablesEdges(f: Forest, g: Forest)
    requires Edges(f) && SameTables(f, g)
    ensures Edges(g)
  {
    forall u, j, c | Points(g, u, j, c)
      ensures c in g.tags && g.tags[c] == ChildTag(g, u, j)
    {
      assert Points(f, u, j, c);
    }
  }

  lemma SameTablesNoHuge(f: Forest, g: Forest)
    requires NoHuge(f) && SameTables(f, g)
    ensures NoHuge(g)
  {
    forall u: nat, j: nat | u in g.tags && g.tags[u].level >= 1 && j < ENTRIES ensures !Ps(Entry(g.mem, u, j)) {
      assert !Ps(Entry(f.mem, u, j));
    }
  }

  lemma SameTablesGaps(f: Forest, g: Forest)
    requires Gaps(f) && SameTables(f, g)
    ensures Gaps(g)
  {
    forall u, j, c | Gap(g, u, j) && c in g.tags ensures g.tags[c] != ChildTag(g, u, j) {
      assert Gap(f, u, j);
    }
  }

  lemma SameTablesParents(f: Forest, g: Forest)
    requires Parents(f) && SameTables(f, g)
    ensures Parents(g)
  {
    forall u | u in g.tags && g.tags[u].level < 3 ensures HasParent(g, u) {
      var s: nat, j: nat :| Points(f, s, j, u);
      assert Points(g, s, j, u);
    }
  }

  lemma SameTablesSlots(f: Forest, g: Forest)
    requires g.tags == f.tags && g.owner == f.owner
    ensures forall u: nat, j: nat :: SlotSpace(g, u, j) == SlotSpace(f, u, j)
  {
  }

  lemma SameTablesRoots(f: Forest, g: Forest)
    requires RootsOk(f) && TagsInjective(f) && SameTables(f, g)
    ensures RootsOk(g) && TagsInjective(g)
  {
    hide SlotSpace;
    SameTablesSlots(f, g);
  }

  lemma SameTablesSharing(f: Forest, g: Forest)
    requires RootsOk(f) && Sharing(f) && SameTables(f, g)
    ensures Sharing(g)
  {
    hide SlotSpace;
    SameTablesSlots(f, g);
    forall r, s, i | r in g.owner && s in g.owner && r != s && 0 <= i < ENTRIES && SlotSpace(g, r, i) == SlotSpace(g, s, i)
      ensures Entry(g.mem, r, i) == Entry(g.mem, s, i) && Present(Entry(g.mem, r, i))
    {
      assert SlotSpace(f, r, i) == SlotSpace(f, s, i);
    }
  }

  lemma LeafIs(f: Forest, t: nat, i: nat, w: nat)
    requires Shapes(f) && t in f.tags && f.tags[t].level == 0 && i < ENTRIES
    ensures var g := f.(mem := Write(f.mem, t, i, w));
      && SameTables(f, g) && g.mem.Keys == f.mem.Keys && Entry(g.mem, t, i) == w
      && (forall u: nat, j: nat :: !(u == t && j == i) ==> Entry(g.mem, u, j) == Entry(f.mem, u, j))
  {
  }

  lemma LeafCore(f: Forest, t: nat, i: nat, w: nat)
    requires Core(f) && t in f.tags && f.tags[t].level == 0 && i < ENTRIES
    ensures Core(f.(mem := Write(f.mem, t, i, w)))
  {
    var g := f.(mem := Write(f.mem, t, i, w));
    LeafIs(f, t, i, w);
    SameTablesEdges(f, g);
    SameTablesNoHuge(f, g);
    SameTablesGaps(f, g);
    SameTablesParents(f, g);
    SameTablesRoots(f, g);
    SameTablesSharing(f, g);
  }

  /* ---- map ---- */

  /** Tables above `level` keep their words. */
  ghost predicate RowsKept(f: Forest, g: Forest, level: nat) {
    forall u: nat, j: nat :: u in f.tags && f.tags[u].level > level ==> Entry(g.mem, u, j) == Entry(f.mem, u, j)
  }

  /** A present link above the leaves is never changed. */
  ghost predicate LinksKept(f: Forest, g: Forest) {
    forall u: nat, j: nat :: u in f.tags && f.tags[u].level >= 1 && Present(Entry(f.mem, u, j)) ==> Entry(g.mem, u, j) == Entry(f.mem, u, j)
  }

  ghost function NewTables(f: Forest, g: Forest): iset<nat> {
    iset t: nat | t in g.mem && t !in f.mem
  }

  /** The forest and free lists once the slot of `t` on the walk of `v` holds a table. */
  ghost function Grown(l: Lists, f: Forest, t: nat, level: nat, v: nat): (Lists, Forest)
    requires level >= 1
  {
    var i := Index(level, v);
    if Present(Entry(f.mem, t, i)) || AllocSpec(l, 0).1.None? then (l, f)
    else (AllocSpec(l, 0).0, Install(f, t, i, AllocSpec(l, 0).1.value))
  }

  lemma AllocPage(l: Lists)
    requires Inv(l) && AllocSpec(l, 0).1.Some?
    ensures var (l1, r) := AllocSpec(l, 0);
      && Inv(l1) && FreeSet(l) == FreeSet(l1) + iset{r.value} && r.value !in FreeSet(l1) && Weight(l) == Weight(l1) + 1
  {
    hide AllocSpec, Inv, FreePage;
    AllocKeepsInv(l, 0);
    var p := AllocSpec(l, 0).1.value;
    assert Block(p, 0) == iset{p};
    assert InBlock(p, p, 0);
  }

  lemma GrowPages(l: Lists, f: Forest, t: nat, level: nat, v: nat)
    requires Core(f) && Fresh(l, f) && OnWalk(f, t, level, v) && 1 <= level <= 3
    requires AllocSpec(l, 0).1.Some? && !Present(Entry(f.mem, t, Index(level, v)))
    ensures var (l1, g) := Grown(l, f, t, level, v);
      && Core(g) && Installed(f, g, t, Index(level, v), AllocSpec(l, 0).1.value)
      && FreeSet(l) == FreeSet(l1) + NewTables(f, g) && FreeSet(l1) !! NewTables(f, g)
      && Weight(l) + |f.mem| == Weight(l1) + |g.mem|
      && Fresh(l1, g)
  {
    hide Core, Inv, FreeSet;
    var i := Index(level, v);
    IndexBound(level, v);
    var p := AllocSpec(l, 0).1.value;
    AllocPage(l);
    CoreKeys(f);
    assert p in FreeSet(l) && p !in f.tags;
    InstallCore(f, t, i, p);
    var g := Install(f, t, i, p);
    assert g.mem.Keys == f.mem.Keys + {p};
    assert NewTables(f, g) == iset{p};
    assert |g.mem.Keys| == |f.mem.Keys| + 1;
  }

  /** One level of the descent: the slot is present afterwards and its table is on the walk. */
  lemma GrowStep(l: Lists, f: Forest, t: nat, level: nat, v: nat, word: nat)
    requires Core(f) && Fresh(l, f) && OnWalk(f, t, level, v) && 1 <= level <= 3
    requires MapWalk(l, f, t, level, v, word).Some?
    ensures var (l1, g) := Grown(l, f, t, level, v);
      && Core(g) && Fresh(l1, g)
      && FreeSet(l) == FreeSet(l1) + NewTables(f, g) && FreeSet(l1) !! NewTables(f, g)
      && Weight(l) + |f.mem| == Weight(l1) + |g.mem|
  {
    hide Core, Inv, FreeSet;
    if !Present(Entry(f.mem, t, Index(level, v))) {
      GrowPages(l, f, t, level, v);
    }
  }

  lemma GrowDescend(l: Lists, f: Forest, t: nat, level: nat, v: nat, word: nat)
    requires Core(f) && Fresh(l, f) && OnWalk(f, t, level, v) && 1 <= level <= 3
    requires MapWalk(l, f, t, level, v, word).Some?
    ensures var (l1, g) := Grown(l, f, t, level, v); var i := Index(level, v); var c := FrameOf(Entry(g.mem, t, i));
      && Extends(f, g) && RowsKept(f, g, level) && LinksKept(f, g)
      && Present(Entry(g.mem, t, i)) && Points(g, t, i, c) && OnWalk(g, c, level - 1, v)
      && MapWalk(l, f, t, level, v, word) == MapWalk(l1, g, c, level - 1, v, word)
  {
    hide Core, Inv, FreeSet;
    CoreEdges(f);
    IndexBound(level, v);
    if !Present(Entry(f.mem, t, Index(level, v))) {
      var p := AllocSpec(l, 0).1.value;
      GrowPages(l, f, t, level, v);
      CoreEdges(Grown(l, f, t, level, v).1);
      WordFacts(p, Flags(false, false, false, false));
    }
    StepOnWalk(Grown(l, f, t, level, v).1, t, level, v);
  }

  lemma OnWalkLevel(f: Forest, t: nat, level: nat, v: nat)
    requires OnWalk(f, t, level, v)
    ensures t in f.tags && f.tags[t].level == level
  {
  }

  lemma LeafFresh(l: Lists, f: Forest, g: Forest)
    requires Fresh(l, f)
    ensures g.mem.Keys == f.mem.Keys ==> Fresh(l, g)
  {
    hide Inv, FreeSet;
  }

  lemma LeafOnly(f: Forest, t: nat, i: nat, w: nat)
    requires Core(f) && t in f.tags && f.tags[t].level == 0 && i < ENTRIES
    ensures var g := f.(mem := Write(f.mem, t, i, w));
      Extends(f, g) && RowsKept(f, g, 0) && LinksKept(f, g) && g.mem.Keys == f.mem.Keys && NewTables(f, g) == iset{}
  {
    LeafIs(f, t, i, w);
  }

  lemma Compose(f: Forest, g: Forest, h: Forest, level: nat)
    requires Extends(f, g) && RowsKept(f, g, level + 1) && LinksKept(f, g) && f.mem.Keys == f.tags.Keys
    requires Extends(g, h) && RowsKept(g, h, level) && LinksKept(g, h) && g.mem.Keys == g.tags.Keys
    ensures Extends(f, h) && RowsKept(f, h, level + 1) && LinksKept(f, h)
    ensures NewTables(f, h) == NewTables(f, g) + NewTables(g, h)
  {
  }

  /** `map_page` keeps the forest a forest; every table it adds is a page taken from the free lists. */
  lemma {:induction false} MapKeepsCore(l: Lists, f: Forest, t: nat, level: nat, v: nat, word: nat)
    requires Core(f) && Fresh(l, f) && OnWalk(f, t, level, v) && level <= 3
    requires MapWalk(l, f, t, level, v, word).Some?
    ensures var (l1, g) := MapWalk(l, f, t, level, v, word).value;
      && Core(g) && Fresh(l1, g) && Extends(f, g) && RowsKept(f, g, level) && LinksKept(f, g)
      && FreeSet(l) == FreeSet(l1) + NewTables(f, g) && FreeSet(l1) !! NewTables(f, g)
      && Weight(l) + |f.mem| == Weight(l1) + |g.mem|
    decreases level
  {
    hide *;
    IndexBound(level, v);
    if level == 0 {
      MapWalkLeaf(l, f, t, v, word);
      OnWalkLevel(f, t, 0, v);
      LeafFresh(l, f, f.(mem := Write(f.mem, t, Index(0, v), word)));
      LeafOnly(f, t, Index(0, v), word);
      LeafCore(f, t, Index(0, v), word);
    } else {
      var (l1, g) := Grown(l, f, t, level, v);
      GrowStep(l, f, t, level, v, word);
      GrowDescend(l, f, t, level, v, word);
      MapKeepsCore(l1, g, FrameOf(Entry(g.mem, t, Index(level, v))), level - 1, v, word);
      CoreKeys(f);
      CoreKeys(g);
      Compose(f, g, MapWalk(l, f, t, level, v, word).value.1, level - 1);
    }
  }

  lemma LeafLookup(f: Forest, t: nat, v: nat, word: nat, u: nat, x: nat)
    requires Shapes(f) && RootsOk(f) && TagsInjective(f) && OnWalk(f, t, 0, v) && OnWalk(f, u, 0, x)
    ensures Lookup(Write(f.mem, t, Index(0, v), word), u, 0, x) ==
      if x == v && SlotSpace(f, u, Index(0, v)) == SlotSpace(f, t, Index(0, v)) then (if Present(word) then Some(word) else None)
      else Lookup(f.mem, u, 0, x)
  {
    LeafIs(f, t, Index(0, v), word);
    assert t !in f.owner && u !in f.owner;
    assert f.tags[t] == f.tags[u] ==> t == u;
  }

  lemma GrowLookup(l: Lists, f: Forest, t: nat, level: nat, v: nat, word: nat, u: nat, x: nat)
    requires Core(f) && Fresh(l, f) && OnWalk(f, t, level, v) && 1 <= level <= 3 && OnWalk(f, u, level, x)
    requires MapWalk(l, f, t, level, v, word).Some?
    ensures Lookup(Grown(l, f, t, level, v).1.mem, u, level, x) == Lookup(f.mem, u, level, x)
  {
    if !Present(Entry(f.mem, t, Index(level, v))) {
      GrowPages(l, f, t, level, v);
      InstallLookup(f, Grown(l, f, t, level, v).1, t, Index(level, v), AllocSpec(l, 0).1.value, u, level, x);
    }
  }

  /** Below the root a table's slots all belong to the space of the slot it hangs from. */
  lemma ChildSlots(g: Forest, t: nat, i: nat, c: nat, k: nat)
    requires Core(g) && Points(g, t, i, c)
    ensures SlotSpace(g, c, k) == SlotSpace(g, t, i)
  {
    assert c in g.tags && g.tags[c] == ChildTag(g, t, i);
    assert g.tags[t].level <= 3 && c !in g.owner;
  }

  /** Tables of one level on one walk whose slots share a space hold the same word there. */
  lemma SameSlotPresent(g: Forest, t: nat, u: nat, level: nat, v: nat)
    requires Core(g) && OnWalk(g, t, level, v) && u in g.tags && g.tags[u].level == level && level >= 1
    ensures OnWalk(g, u, level, v) && SlotSpace(g, u, Index(level, v)) == SlotSpace(g, t, Index(level, v)) ==>
      Entry(g.mem, u, Index(level, v)) == Entry(g.mem, t, Index(level, v))
  {
    IndexBound(level, v);
    if OnWalk(g, u, level, v) && SlotSpace(g, u, Index(level, v)) == SlotSpace(g, t, Index(level, v)) {
      SameChild(g, t, Index(level, v), u, Index(level, v));
    }
  }

  /**
   `map_page` changes the translation of exactly one page of one space: seen
   from any table `u` of the level it started at, page `x` translates to the
   new word if it is the mapped page and `u`'s slot lies in the same space, and
   as before otherwise.
   */
  lemma {:induction false} MapLookup(l: Lists, f: Forest, t: nat, level: nat, v: nat, word: nat, u: nat, x: nat)
    requires Core(f) && Fresh(l, f) && OnWalk(f, t, level, v) && OnWalk(f, u, level, x) && level <= 3 && Present(word)
    requires MapWalk(l, f, t, level, v, word).Some?
    ensures Lookup(MapWalk(l, f, t, level, v, word).value.1.mem, u, level, x) ==
      if x == v && SlotSpace(f, u, Index(level, v)) == SlotSpace(f, t, Index(level, v)) then Some(word)
      else Lookup(f.mem, u, level, x)
    decreases level
  {
    hide *;
    if level == 0 {
      MapWalkLeaf(l, f, t, v, word);
      LeafLookupCore(f, t, v, word, u, x);
    } else {
      var (l1, g) := Grown(l, f, t, level, v);
      var i, j := Index(level, v), Index(level, x);
      var c, d := FrameOf(Entry(g.mem, t, i)), FrameOf(Entry(g.mem, u, j));
      GrowStep(l, f, t, level, v, word);
      GrowDescend(l, f, t, level, v, word);
      GrowLookup(l, f, t, level, v, word, u, x);
      MapKeepsCore(l1, g, c, level - 1, v, word);
      var g' := MapWalk(l1, g, c, level - 1, v, word).value.1;
      SameAfterGrowth(f, g, g', t, u, level, v, x);
      LookupUnfold(g.mem, u, level, x);
      LookupUnfold(g'.mem, u, level, x);
      if Present(Entry(g.mem, u, j)) {
        CoreEdges(g);
        StepOnWalk(g, u, level, x);
        ChildSlots(g, t, i, c, Index(level - 1, v));
        ChildSlots(g, u, j, d, Index(level - 1, v));
        MapLookup(l1, g, c, level - 1, v, word, d, x);
      }
    }
  }

  lemma MapWalkLeaf(l: Lists, f: Forest, t: nat, v: nat, word: nat)
    ensures MapWalk(l, f, t, 0, v, word) == Some((l, f.(mem := Write(f.mem, t, Index(0, v), word))))
  {
  }

  lemma LeafLookupCore(f: Forest, t: nat, v: nat, word: nat, u: nat, x: nat)
    requires Core(f) && OnWalk(f, t, 0, v) && OnWalk(f, u, 0, x)
    ensures Lookup(Write(f.mem, t, Index(0, v), word), u, 0, x) ==
      if x == v && SlotSpace(f, u, Index(0, v)) == SlotSpace(f, t, Index(0, v)) then (if Present(word) then Some(word) else None)
      else Lookup(f.mem, u, 0, x)
  {
    LeafLookup(f, t, v, word, u, x);
  }

  lemma LookupUnfold(mem: map<nat, seq<nat>>, t: nat, level: nat, v: nat)
    ensures var w := Entry(mem, t, Index(level, v));
      Lookup(mem, t, level, v) == if !Present(w) then None else if level == 0 then Some(w) else Lookup(mem, FrameOf(w), level - 1, v)
  {
  }

  /** What the growth of one slot leaves in place for the rest of the descent. */
  lemma SameAfterGrowth(f: Forest, g: Forest, g': Forest, t: nat, u: nat, level: nat, v: nat, x: nat)
    requires level >= 1 && Core(g) && Extends(f, g) && RowsKept(g, g', level - 1)
    requires OnWalk(f, t, level, v) && OnWalk(f, u, level, x)
    ensures OnWalk(g, t, level, v) && OnWalk(g, u, level, x)
    ensures Entry(g'.mem, u, Index(level, x)) == Entry(g.mem, u, Index(level, x))
    ensures SlotSpace(g, u, Index(level, v)) == SlotSpace(f, u, Index(level, v))
    ensures SlotSpace(g, t, Index(level, v)) == SlotSpace(f, t, Index(level, v))
    ensures x == v && SlotSpace(g, u, Index(level, v)) == SlotSpace(g, t, Index(level, v)) ==>
      Entry(g.mem, u, Index(level, v)) == Entry(g.mem, t, Index(level, v))
  {
    hide Core;
    SameSlots(f, g, u, Index(level, v));
    SameSlots(f, g, t, Index(level, v));
    SameSlotPresent(g, t, u, level, v);
  }

  /* ---- unmap ---- */

  /** `unmap_page` touches no table above the leaves. */
  lemma {:induction false} UnmapKeepsCore(f: Forest, t: nat, level: nat, v: nat)
    requires Core(f) && OnWalk(f, t, level, v) && level <= 3
    ensures var g := f.(mem := UnmapWalk(f.mem, t, level, v));
      Core(g) && g.mem.Keys == f.mem.Keys && SameTables(f, g)
    decreases level
  {
    hide Core;
    IndexBound(level, v);
    CoreEdges(f);
    if level == 0 {
      LeafCore(f, t, Index(0, v), 0);
      LeafIsCore(f, t, Index(0, v), 0);
    } else if Present(Entry(f.mem, t, Index(level, v))) {
      StepOnWalk(f, t, level, v);
      UnmapKeepsCore(f, FrameOf(Entry(f.mem, t, Index(level, v))), level - 1, v);
    } else {
      SameTablesRefl(f);
    }
  }

  lemma LeafIsCore(f: Forest, t: nat, i: nat, w: nat)
    requires Core(f) && t in f.tags && f.tags[t].level == 0 && i < ENTRIES
    ensures var g := f.(mem := Write(f.mem, t, i, w)); SameTables(f, g) && g.mem.Keys == f.mem.Keys
  {
    LeafIs(f, t, i, w);
  }

  lemma SameTablesRefl(f: Forest)
    requires Core(f)
    ensures SameTables(f, f)
  {
  }

  /** `unmap_page` ends the translation of exactly one page of one space. */
  lemma {:induction false} UnmapLookup(f: Forest, t: nat, level: nat, v: nat, u: nat, x: nat)
    requires Core(f) && OnWalk(f, t, level, v) && OnWalk(f, u, level, x) && level <= 3
    ensures Lookup(UnmapWalk(f.mem, t, level, v), u, level, x) ==
      if x == v && SlotSpace(f, u, Index(level, v)) == SlotSpace(f, t, Index(level, v)) then None
      else Lookup(f.mem, u, level, x)
    decreases level
  {
    hide Core;
    if level == 0 {
      LeafLookupCore(f, t, v, 0, u, x);
    } else {
      var i, j := Index(level, v), Index(level, x);
      var c, d := FrameOf(Entry(f.mem, t, i)), FrameOf(Entry(f.mem, u, j));
      CoreEdges(f);
      UnmapKeepsCore(f, t, level, v);
      SameSlotPresent(f, t, u, level, v);
      if Present(Entry(f.mem, t, i)) && Present(Entry(f.mem, u, j)) {
        StepOnWalk(f, t, level, v);
        StepOnWalk(f, u, level, x);
        ChildSlots(f, t, i, c, Index(level - 1, v));
        ChildSlots(f, u, j, d, Index(level - 1, v));
        UnmapLookup(f, c, level - 1, v, d, x);
      }
    }
  }

  /* ---- new roots ---- */

  /** `g` is `f` with one more root, `p`, a copy of `root`. */
  ghost predicate Copied(f: Forest, g: Forest, root: nat, p: nat) {
    && root in f.owner && p !in f.tags && p !in f.owner && p < TWO51
    && g.tags == f.tags[p := Tag(p, 3, 0)]
    && g.owner.Keys == f.owner.Keys + {p}
    && (forall u: nat, j: nat :: u != p ==> Entry(g.mem, u, j) == Entry(f.mem, u, j) && SlotSpace(g, u, j) == SlotSpace(f, u, j))
    && (forall j: nat :: Entry(g.mem, p, j) == Entry(f.mem, root, j))
    && (forall j: nat :: j < ENTRIES ==> SlotSpace(g, p, j) == if Present(Entry(f.mem, root, j)) then SlotSpace(f, root, j) else p)
  }

  lemma CopyIs(f: Forest, root: nat, p: nat)
    requires Shapes(f) && RootsOk(f) && root in f.owner && p !in f.tags && p < TWO51
    ensures Copied(f, CopyRoot(f, root, p), root, p) && Shapes(CopyRoot(f, root, p)) && RootsOk(CopyRoot(f, root, p))
  {
    var g := CopyRoot(f, root, p);
    forall r, i | r in g.owner && 0 <= i < ENTRIES ensures SlotSpace(g, r, i) in g.owner {
      assert SlotSpace(f, root, i) in f.owner;
      assert r != p ==> SlotSpace(f, r, i) in f.owner;
    }
  }

  lemma CopyLinks(f: Forest, g: Forest, root: nat, p: nat)
    requires RootsOk(f) && Edges(f) && Parents(f) && Copied(f, g, root, p)
    ensures Edges(g) && Parents(g)
  {
    forall u, j, c | Points(g, u, j, c)
      ensures c in g.tags && g.tags[c] == ChildTag(g, u, j)
    {
      assert Points(f, if u == p then root else u, j, c);
    }
    forall u | u in g.tags && g.tags[u].level < 3 ensures HasParent(g, u) {
      var s: nat, j: nat :| Points(f, s, j, u);
      assert Points(g, s, j, u);
    }
  }

  lemma CopyNoHuge(f: Forest, g: Forest, root: nat, p: nat)
    requires RootsOk(f) && NoHuge(f) && Copied(f, g, root, p)
    ensures NoHuge(g)
  {
    forall u: nat, j: nat | u in g.tags && g.tags[u].level >= 1 && j < ENTRIES ensures !Ps(Entry(g.mem, u, j)) {
      assert !Ps(Entry(f.mem, if u == p then root else u, j));
    }
  }

  lemma CopyGaps(f: Forest, g: Forest, root: nat, p: nat)
    requires RootsOk(f) && Gaps(f) && Copied(f, g, root, p)
    ensures Gaps(g)
  {
    forall u, j, c | Gap(g, u, j) && c in g.tags ensures g.tags[c] != ChildTag(g, u, j) {
      if u == p {
        assert ChildTag(g, p, j).space == p;
      } else {
        assert Gap(f, u, j);
      }
    }
  }

  lemma CopySharing(f: Forest, g: Forest, root: nat, p: nat)
    requires RootsOk(f) && Sharing(f) && TagsInjective(f) && Copied(f, g, root, p)
    ensures Sharing(g) && TagsInjective(g)
  {
    forall r, s, i | r in g.owner && s in g.owner && r != s && 0 <= i < ENTRIES && SlotSpace(g, r, i) == SlotSpace(g, s, i)
      ensures Entry(g.mem, r, i) == Entry(g.mem, s, i) && Present(Entry(g.mem, r, i))
    {
      if r == p || s == p {
        var o := if r == p then s else r;
        assert SlotSpace(f, o, i) in f.owner;
        assert Present(Entry(f.mem, root, i));
      }
    }
  }

  /** Copying a root keeps the forest a forest: present slots are shared, missing ones are the copy's own. */
  lemma CopyCore(f: Forest, root: nat, p: nat)
    requires Core(f) && root in f.owner && p !in f.tags && p < TWO51
    ensures Core(CopyRoot(f, root, p)) && Copied(f, CopyRoot(f, root, p), root, p)
  {
    var g := CopyRoot(f, root, p);
    CopyIs(f, root, p);
    CopyLinks(f, g, root, p);
    CopyNoHuge(f, g, root, p);
    CopyGaps(f, g, root, p);
    CopySharing(f, g, root, p);
  }

  /** Old tables translate as before. */
  lemma {:induction false} CopyLookup(f: Forest, g: Forest, root: nat, p: nat, u: nat, level: nat, x: nat)
    requires Edges(f) && Copied(f, g, root, p) && OnWalk(f, u, level, x) && level <= 3
    ensures Lookup(g.mem, u, level, x) == Lookup(f.mem, u, level, x)
    decreases level
  {
    if Present(Entry(f.mem, u, Index(level, x))) && level > 0 {
      StepOnWalk(f, u, level, x);
      CopyLookup(f, g, root, p, FrameOf(Entry(f.mem, u, Index(level, x))), level - 1, x);
    }
  }

  /** The copy translates as its model does. */
  lemma CopyLookupNew(f: Forest, g: Forest, root: nat, p: nat, x: nat)
    requires Edges(f) && Copied(f, g, root, p) && OnWalk(f, root, 3, x)
    ensures Lookup(g.mem, p, 3, x) == Lookup(f.mem, root, 3, x)
  {
    if Present(Entry(f.mem, root, Index(3, x))) {
      StepOnWalk(f, root, 3, x);
      CopyLookup(f, g, root, p, FrameOf(Entry(f.mem, root, Index(3, x))), 2, x);
    }
  }
}
