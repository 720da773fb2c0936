/**
 What creating a file or directory does to every path, over single calls and
 whole runs, and the one-to-one match of inodes and paths.
 */
module VfsTheorems {
  import opened Collections
  import opened VfsPath
  import opened VfsTree

  lemma {:induction false} WalkStaysInside(fs: Fs, p: nat, cs: seq<string>)
    requires Inv(fs) && p < |fs.inodes|
    ensures Walk(fs, p, cs).Some? ==> p <= Walk(fs, p, cs).value < |fs.inodes|
    decreases |cs|
  {
    hide FirstNamed;
    if cs != [] && Enter(fs, p, cs[0]).Some? {
      var c := Enter(fs, p, cs[0]).value;
      if cs[0] != "." {
        ChildIff(fs, p, cs[0], c);
      }
      WalkStaysInside(fs, c, cs[1..]);
    }
  }

  lemma {:induction false} WalkOfConcat(fs: Fs, p: nat, a: seq<string>, b: seq<string>)
    ensures Walk(fs, p, a + b) == match Walk(fs, p, a) case None => None case Some(q) => Walk(fs, q, b)
    decreases |a|
  {
    if a == [] {
      assert a + b == b;
    } else {
      assert (a + b)[1..] == a[1..] + b;
      if Enter(fs, p, a[0]).Some? {
        WalkOfConcat(fs, Enter(fs, p, a[0]).value, a[1..], b);
      }
    }
  }

  /** The walk reaches `q` after `i` components and asks for `name` next. */
  ghost predicate PassesAt(fs: Fs, p: nat, cs: seq<string>, q: nat, name: string, i: nat) {
    i < |cs| && Walk(fs, p, cs[..i]) == Some(q) && cs[i] == name
  }

  ghost predicate GoesThrough(fs: Fs, p: nat, cs: seq<string>, q: nat, name: string) {
    exists i: nat :: PassesAt(fs, p, cs, q, name, i)
  }

  lemma PassesLater(fs: Fs, p: nat, cs: seq<string>, q: nat, name: string, i: nat)
    requires cs != [] && Enter(fs, p, cs[0]).Some?
    ensures PassesAt(fs, p, cs, q, name, i + 1) <==> PassesAt(fs, Enter(fs, p, cs[0]).value, cs[1..], q, name, i)
  {
    if i + 1 < |cs| {
      assert cs[..i + 1][1..] == cs[1..][..i];
    }
  }

  /** Before the new binding `(q, name)` is reached, nothing has changed. */
  lemma {:induction false} WalkElsewhere(fs: Fs, q: nat, name: string, mode: nat, p: nat, cs: seq<string>)
    requires Inv(fs) && q < |fs.inodes| && Enter(fs, q, name) == None && !GoesThrough(fs, p, cs, q, name)
    ensures Walk(AddChild(fs, q, name, mode), p, cs) == Walk(fs, p, cs)
    decreases |cs|
  {
    if cs == [] {
    } else {
      hide AddChild, Child;
      assert cs[..0] == [] && !PassesAt(fs, p, cs, q, name, 0);
      AddsOneBinding(fs, q, name, mode, p, cs[0]);
      if Enter(fs, p, cs[0]).Some? {
        var c := Enter(fs, p, cs[0]).value;
        forall i: nat ensures !PassesAt(fs, c, cs[1..], q, name, i) {
          PassesLater(fs, p, cs, q, name, i);
        }
        WalkElsewhere(fs, q, name, mode, c, cs[1..]);
      }
    }
  }

  /** A path to `q` does not pass through a name that `q` lacks. */
  lemma NotThrough(fs: Fs, p: nat, cs: seq<string>, q: nat, name: string, i: nat)
    requires Enter(fs, q, name) == None && i <= |cs| && Walk(fs, p, cs[..i]).Some?
    ensures !GoesThrough(fs, p, cs[..i], q, name)
  {
    forall j: nat | j < i ensures !PassesAt(fs, p, cs[..i], q, name, j) {
      assert cs[..i] == cs[..j] + cs[j..i] && cs[..i][..j] == cs[..j] && cs[j..i][0] == cs[j];
      WalkOfConcat(fs, p, cs[..j], cs[j..i]);
      assert cs[j] == name ==> Walk(fs, q, cs[j..i]) == None;
    }
  }

  /** The new inode has no children, so only "." leads on from it. */
  lemma {:induction false} WalkFromNew(fs: Fs, q: nat, name: string, mode: nat, cs: seq<string>)
    requires Inv(fs) && q < |fs.inodes|
    ensures Walk(AddChild(fs, q, name, mode), |fs.inodes|, cs) ==
      if forall i :: 0 <= i < |cs| ==> cs[i] == "." then Some(|fs.inodes|) else None
    decreases |cs|
  {
    if cs == [] {
    } else {
      if cs[0] == "." {
        WalkFromNew(fs, q, name, mode, cs[1..]);
        if forall i :: 0 <= i < |cs[1..]| ==> cs[1..][i] == "." {
          assert forall i :: 0 < i < |cs| ==> cs[i] == cs[1..][i - 1];
        } else {
          var i :| 0 <= i < |cs[1..]| && cs[1..][i] != ".";
          assert cs[i + 1] != ".";
        }
      } else {
        assert Child(AddChild(fs, q, name, mode), |fs.inodes|, cs[0]) == None;
      }
    }
  }

  /**
   Every path after a create: one that passes through the new name leads to the
   new inode if only "." follows and nowhere otherwise; every other path
   resolves or fails as before.
   */
  lemma PathsAfterCreate(fs: Fs, q: nat, name: string, mode: nat, p: nat, cs: seq<string>)
    requires Inv(fs) && q < |fs.inodes| && Enter(fs, q, name) == None
    ensures !GoesThrough(fs, p, cs, q, name) ==> Walk(AddChild(fs, q, name, mode), p, cs) == Walk(fs, p, cs)
    ensures forall i: nat :: PassesAt(fs, p, cs, q, name, i) ==>
      && Walk(fs, p, cs) == None
      && Walk(AddChild(fs, q, name, mode), p, cs) ==
           if forall j :: i < j < |cs| ==> cs[j] == "." then Some(|fs.inodes|) else None
  {
    hide AddChild, Child, Inv;
    if !GoesThrough(fs, p, cs, q, name) {
      WalkElsewhere(fs, q, name, mode, p, cs);
    }
    forall i: nat | PassesAt(fs, p, cs, q, name, i)
      ensures Walk(fs, p, cs) == None
      ensures Walk(AddChild(fs, q, name, mode), p, cs) ==
        if forall j :: i < j < |cs| ==> cs[j] == "." then Some(|fs.inodes|) else None
    {
      ThroughNew(fs, q, name, mode, p, cs, i);
    }
  }

  lemma ThroughNew(fs: Fs, q: nat, name: string, mode: nat, p: nat, cs: seq<string>, i: nat)
    requires Inv(fs) && q < |fs.inodes| && Enter(fs, q, name) == None && PassesAt(fs, p, cs, q, name, i)
    ensures Walk(fs, p, cs) == None
    ensures Walk(AddChild(fs, q, name, mode), p, cs) ==
      if forall j :: i < j < |cs| ==> cs[j] == "." then Some(|fs.inodes|) else None
  {
    hide AddChild, Child, Inv;
    var fs' := AddChild(fs, q, name, mode);
    var rest := cs[i + 1..];
    assert cs == cs[..i] + cs[i..] && cs[i..][0] == name && cs[i..][1..] == rest;
    NotThrough(fs, p, cs, q, name, i);
    WalkElsewhere(fs, q, name, mode, p, cs[..i]);
    WalkOfConcat(fs, p, cs[..i], cs[i..]);
    WalkOfConcat(fs', p, cs[..i], cs[i..]);
    AddsOneBinding(fs, q, name, mode, q, name);
    WalkFromNew(fs, q, name, mode, rest);
    assert (forall j :: 0 <= j < |rest| ==> rest[j] == ".") <==> (forall j :: i < j < |cs| ==> cs[j] == ".") by {
      assert forall j :: i < j < |cs| ==> cs[j] == rest[j - i - 1];
    }
  }

  /** The components of a path with a parent: those of the parent, then the name. */
  lemma NamesSplit(path: string)
    requires |Parse(path)| > 1
    ensures Names(path) != [] && Last(Names(path)) == Last(Parse(path))
    ensures Names(path) == Names(path)[..|Names(path)| - 1] + [Last(Parse(path))]
  {
  }

  /** Opening a path is finding its parent and entering its last name. */
  lemma OpenViaParent(fs: Fs, path: string, rel: nat)
    requires |Parse(path)| > 1
    ensures Open(fs, path, rel) == match Parent(fs, path, rel)
      case Fail(e) => Fail(e)
      case Ok(q) => match Enter(fs, q, Last(Parse(path))) case None => Fail(ENOENT) case Some(c) => Ok(c)
  {
    hide Parse, Names;
    NamesSplit(path);
    var names, name := Names(path), Last(Parse(path));
    WalkOfConcat(fs, Start(path, rel), names[..|names| - 1], [name]);
    forall q: nat ensures Walk(fs, q, [name]) == Enter(fs, q, name) {
      if Enter(fs, q, name).Some? {
        assert [name][1..] == [] && Walk(fs, Enter(fs, q, name).value, []) == Enter(fs, q, name);
      }
    }
  }

  lemma ParentInside(fs: Fs, path: string, rel: nat)
    requires Inv(fs) && rel < |fs.inodes|
    ensures Parent(fs, path, rel).Ok? ==> Parent(fs, path, rel).inode < |fs.inodes|
  {
    if |Parse(path)| > 1 {
      NamesSplit(path);
      WalkStaysInside(fs, Start(path, rel), Names(path)[..|Names(path)| - 1]);
    }
  }

  /** Exactly when a create succeeds, and with which error it fails otherwise. */
  lemma CreateSucceedsIff(fs: Fs, path: string, rel: nat, mode: nat)
    requires Inv(fs) && rel < |fs.inodes|
    ensures var r := Create(fs, path, rel, mode).1;
      && (r.Ok? <==> Parent(fs, path, rel).Ok? && Open(fs, path, rel) == Fail(ENOENT))
      && (r == Fail(EEXIST) <==> |Parse(path)| > 1 && Open(fs, path, rel).Ok?)
      && (r == Fail(ENOENT) <==> Parent(fs, path, rel) == Fail(ENOENT))
      && (r == Fail(EINVAL) <==> |Parse(path)| <= 1)
    ensures Create(fs, path, rel, mode).1.Fail? ==> Create(fs, path, rel, mode).0 == fs
  {
    hide Parse, Walk, Inv, Names;
    ParentInside(fs, path, rel);
    if |Parse(path)| > 1 {
      OpenViaParent(fs, path, rel);
    }
  }

  predicate SameInode(i: Inode, j: Inode) {
    i.number == j.number && i.name == j.name && i.mode == j.mode
  }

  lemma CreateKeepsInv(fs: Fs, path: string, rel: nat, mode: nat)
    requires Inv(fs) && rel < |fs.inodes|
    ensures var (fs', r) := Create(fs, path, rel, mode);
      && Inv(fs') && |fs'.inodes| == |fs.inodes| + (if r.Ok? then 1 else 0)
      && (r.Ok? ==> r.inode == fs.nextNumber)
      && (forall c :: 0 <= c < |fs.inodes| ==> SameInode(fs.inodes[c], fs'.inodes[c]))
  {
    ParentInside(fs, path, rel);
    if Create(fs, path, rel, mode).1.Ok? {
      AddChildKeepsInv(fs, Parent(fs, path, rel).inode, Last(Parse(path)), mode);
    }
  }

  /** The path just created opens to the inode just made. */
  lemma CreateThenOpen(fs: Fs, path: string, rel: nat, mode: nat)
    requires Inv(fs) && rel < |fs.inodes| && Create(fs, path, rel, mode).1.Ok?
    ensures var (fs', r) := Create(fs, path, rel, mode);
      && Open(fs', path, rel) == r && r.inode == |fs.inodes| && fs'.inodes[r.inode].mode == mode
      && fs'.inodes[r.inode].children == []
      && forall other: string, rel': nat :: Open(fs', other, rel') != r ==> Open(fs', other, rel') == Open(fs, other, rel')
  {
    hide Parse, Inv, Walk, Names;
    ParentInside(fs, path, rel);
    var q, name := Parent(fs, path, rel).inode, Last(Parse(path));
    var fs' := Create(fs, path, rel, mode).0;
    NamesSplit(path);
    ParentKept(fs, path, rel, mode);
    AddsOneBinding(fs, q, name, mode, q, name);
    OpenViaParent(fs', path, rel);
    forall other: string, rel': nat ensures Open(fs', other, rel') == Ok(|fs.inodes|) || Open(fs', other, rel') == Open(fs, other, rel') {
      OthersKept(fs, q, name, mode, other, rel');
    }
  }

  /** The parent of the new name is still where it was. */
  lemma ParentKept(fs: Fs, path: string, rel: nat, mode: nat)
    requires Inv(fs) && rel < |fs.inodes| && Create(fs, path, rel, mode).1.Ok?
    ensures Parent(Create(fs, path, rel, mode).0, path, rel) == Parent(fs, path, rel)
  {
    hide Parse, Inv, AddChild, Names;
    NamesSplit(path);
    ParentInside(fs, path, rel);
    var q, name := Parent(fs, path, rel).inode, Last(Parse(path));
    var names := Names(path);
    NotThrough(fs, Start(path, rel), names, q, name, |names| - 1);
    WalkElsewhere(fs, q, name, mode, Start(path, rel), names[..|names| - 1]);
  }

  lemma OthersKept(fs: Fs, q: nat, name: string, mode: nat, other: string, rel: nat)
    requires Inv(fs) && q < |fs.inodes| && Enter(fs, q, name) == None
    ensures var fs' := AddChild(fs, q, name, mode);
      Open(fs', other, rel) == Ok(|fs.inodes|) || Open(fs', other, rel) == Open(fs, other, rel)
  {
    hide Parse, Inv, AddChild, Names, Walk;
    var p, cs := Start(other, rel), Names(other);
    PathsAfterCreate(fs, q, name, mode, p, cs);
    if GoesThrough(fs, p, cs, q, name) {
      var i: nat :| PassesAt(fs, p, cs, q, name, i);
    }
  }

  /* ---- runs ---- */

  /** A create or mkdir relative to the inode `rel`, with the mode the new inode gets. */
  datatype Op = Op(path: string, rel: nat, mode: nat)

  function Run(fs: Fs, ops: seq<Op>): Fs
    decreases |ops|
  {
    if ops == [] then fs else Run(Create(fs, ops[0].path, ops[0].rel, ops[0].mode).0, ops[1..])
  }

  /** Every `rel` is an inode that exists by then. */
  predicate LegalRun(fs: Fs, ops: seq<Op>)
    decreases |ops|
  {
    ops == [] || (ops[0].rel < |fs.inodes| && LegalRun(Create(fs, ops[0].path, ops[0].rel, ops[0].mode).0, ops[1..]))
  }

  /** Over any run inode numbers are never reused, and a path that resolves goes on resolving to the same inode. */
  lemma {:induction false} RunKeepsPaths(fs: Fs, ops: seq<Op>, p: nat, cs: seq<string>)
    requires Inv(fs) && LegalRun(fs, ops)
    ensures Inv(Run(fs, ops)) && |fs.inodes| <= |Run(fs, ops).inodes|
    ensures forall c :: 0 <= c < |fs.inodes| ==> Run(fs, ops).inodes[c].number == fs.inodes[c].number == c
    ensures Walk(fs, p, cs).Some? ==> Walk(Run(fs, ops), p, cs) == Walk(fs, p, cs)
    decreases |ops|
  {
    hide Walk, Create;
    if ops == [] {
    } else {
      var op := ops[0];
      var fs1 := Create(fs, op.path, op.rel, op.mode).0;
      CreateKeepsInv(fs, op.path, op.rel, op.mode);
      if Walk(fs, p, cs).Some? {
        CreateKeepsWalk(fs, op.path, op.rel, op.mode, p, cs);
      }
      RunKeepsPaths(fs1, ops[1..], p, cs);
    }
  }

  lemma CreateKeepsWalk(fs: Fs, path: string, rel: nat, mode: nat, p: nat, cs: seq<string>)
    requires Inv(fs) && rel < |fs.inodes| && Walk(fs, p, cs).Some?
    ensures Walk(Create(fs, path, rel, mode).0, p, cs) == Walk(fs, p, cs)
  {
    hide Walk, Parse, AddChild, Inv;
    ParentInside(fs, path, rel);
    if Create(fs, path, rel, mode).1.Ok? {
      var q, name := Parent(fs, path, rel).inode, Last(Parse(path));
      PathsAfterCreate(fs, q, name, mode, p, cs);
      assert !GoesThrough(fs, p, cs, q, name);
    }
  }

  /* ---- inodes and paths correspond ---- */

  predicate DotFree(cs: seq<string>) {
    "." !in cs
  }

  lemma WalkLast(fs: Fs, cs: seq<string>, c: nat)
    requires Inv(fs) && cs != [] && DotFree(cs) && Walk(fs, 0, cs) == Some(c)
    ensures var init := cs[..|cs| - 1];
      && DotFree(init) && Walk(fs, 0, init).Some? && IsChild(fs, Walk(fs, 0, init).value, c)
      && fs.inodes[c].name == cs[|cs| - 1] && Walk(fs, 0, init).value < c
  {
    hide Walk;
    var init, last := cs[..|cs| - 1], cs[|cs| - 1];
    assert cs == init + [last] && last in cs && forall x :: x in init ==> x in cs;
    WalkOfConcat(fs, 0, init, [last]);
    var q := Walk(fs, 0, init).value;
    WalkOne(fs, q, last);
    ChildIff(fs, q, last, c);
  }

  lemma WalkOne(fs: Fs, p: nat, name: string)
    ensures Walk(fs, p, [name]) == Enter(fs, p, name)
  {
    if Enter(fs, p, name).Some? {
      assert [name][1..] == [] && Walk(fs, Enter(fs, p, name).value, []) == Enter(fs, p, name);
    }
  }

  /** Two paths from the root without "." that lead to one inode are one path. */
  lemma {:induction false} UniquePath(fs: Fs, cs: seq<string>, ds: seq<string>)
    requires Inv(fs) && DotFree(cs) && DotFree(ds) && Walk(fs, 0, cs).Some? && Walk(fs, 0, cs) == Walk(fs, 0, ds)
    ensures cs == ds
    decreases |cs|
  {
    var c := Walk(fs, 0, cs).value;
    if cs != [] {
      WalkLast(fs, cs, c);
    }
    if ds != [] {
      WalkLast(fs, ds, c);
    }
    if cs != [] && ds != [] {
      UniquePath(fs, cs[..|cs| - 1], ds[..|ds| - 1]);
      assert cs == cs[..|cs| - 1] + [cs[|cs| - 1]] && ds == ds[..|ds| - 1] + [ds[|ds| - 1]];
    }
  }

  /** Every inode has such a path. */
  lemma {:induction false} PathExists(fs: Fs, c: nat) returns (cs: seq<string>)
    requires Inv(fs) && c < |fs.inodes|
    ensures DotFree(cs) && Walk(fs, 0, cs) == Some(c)
    decreases c
  {
    if c == 0 {
      return [];
    }
    var p := ParentOf(fs, c);
    var init := PathExists(fs, p);
    var name := fs.inodes[c].name;
    ChildIff(fs, p, name, c);
    WalkOfConcat(fs, 0, init, [name]);
    WalkOne(fs, p, name);
    cs := init + [name];
  }

  /* ---- paths as they are spelled ---- */

  /** One component leads from inode `p` to inode `c`: "." stays, any other name is a child's. */
  ghost predicate Leads(fs: Fs, p: nat, name: string, c: nat) {
    if name == "." then c == p else IsChild(fs, p, c) && c < |fs.inodes| && fs.inodes[c].name == name
  }

  ghost predicate LeadsAt(fs: Fs, ps: seq<nat>, cs: seq<string>, i: nat)
    requires i < |cs| < |ps|
  {
    Leads(fs, ps[i], cs[i], ps[i + 1])
  }

  /** The inodes passed on the way from `p` to `q`, one step a component. */
  ghost predicate Trail(fs: Fs, p: nat, cs: seq<string>, q: nat, ps: seq<nat>) {
    |ps| == |cs| + 1 && ps[0] == p && ps[|cs|] == q && forall i: nat :: i < |cs| ==> LeadsAt(fs, ps, cs, i)
  }

  ghost predicate Reaches(fs: Fs, p: nat, cs: seq<string>, q: nat) {
    exists ps: seq<nat> :: Trail(fs, p, cs, q, ps)
  }

  lemma EnterIff(fs: Fs, p: nat, name: string, c: nat)
    requires Inv(fs)
    ensures Enter(fs, p, name) == Some(c) <==> Leads(fs, p, name, c)
  {
    ChildIff(fs, p, name, c);
  }

  lemma TrailTail(fs: Fs, p: nat, cs: seq<string>, q: nat, ps: seq<nat>)
    requires cs != [] && Trail(fs, p, cs, q, ps)
    ensures Leads(fs, p, cs[0], ps[1]) && Trail(fs, ps[1], cs[1..], q, ps[1..])
  {
    hide Leads;
    assert LeadsAt(fs, ps, cs, 0);
    forall i: nat | i < |cs[1..]| ensures LeadsAt(fs, ps[1..], cs[1..], i) {
      assert LeadsAt(fs, ps, cs, i + 1);
    }
  }

  lemma TrailCons(fs: Fs, p: nat, cs: seq<string>, q: nat, ps: seq<nat>)
    requires cs != [] && ps != [] && Leads(fs, p, cs[0], ps[0]) && Trail(fs, ps[0], cs[1..], q, ps)
    ensures Trail(fs, p, cs, q, [p] + ps)
  {
    hide Leads;
    forall i: nat | i < |cs| ensures LeadsAt(fs, [p] + ps, cs, i) {
      if i > 0 {
        assert LeadsAt(fs, ps, cs[1..], i - 1);
      }
    }
  }

  /** The walk of the source reaches exactly what a trail of single steps leads to. */
  lemma {:induction false} WalkIff(fs: Fs, p: nat, cs: seq<string>, q: nat)
    requires Inv(fs)
    ensures Walk(fs, p, cs) == Some(q) <==> Reaches(fs, p, cs, q)
    decreases |cs|
  {
    hide Inv, Trail, Leads, Enter;
    if cs == [] {
      NoSteps(fs, p, q);
    } else {
      if Walk(fs, p, cs) == Some(q) {
        var c := Enter(fs, p, cs[0]).value;
        EnterIff(fs, p, cs[0], c);
        WalkIff(fs, c, cs[1..], q);
        var ps: seq<nat> :| Trail(fs, c, cs[1..], q, ps);
        TrailStart(fs, c, cs[1..], q, ps);
        TrailCons(fs, p, cs, q, ps);
      }
      if Reaches(fs, p, cs, q) {
        var ps: seq<nat> :| Trail(fs, p, cs, q, ps);
        TrailStart(fs, p, cs, q, ps);
        TrailTail(fs, p, cs, q, ps);
        EnterIff(fs, p, cs[0], ps[1]);
        WalkIff(fs, ps[1], cs[1..], q);
      }
    }
  }

  lemma TrailStart(fs: Fs, p: nat, cs: seq<string>, q: nat, ps: seq<nat>)
    requires Trail(fs, p, cs, q, ps)
    ensures |ps| == |cs| + 1 && ps[0] == p
  {
  }

  lemma NoSteps(fs: Fs, p: nat, q: nat)
    ensures Reaches(fs, p, [], q) <==> p == q
  {
    if p == q {
      assert Trail(fs, p, [], q, [p]);
    }
  }

  /**
   Opening a path spelled from slash-free components: with a leading slash it is
   the trail of its components from the root, whatever `rel` is; without one, it
   is the same trail from `rel`.  It opens to nothing but the end of that trail.
   */
  lemma OpenSpelled(fs: Fs, cs: seq<string>, rel: nat, q: nat)
    requires Inv(fs) && AllPlain(cs) && EndsInName(cs)
    ensures Open(fs, "/" + Spelled(cs), rel) == Ok(q) <==> Reaches(fs, 0, cs, q)
    ensures Open(fs, "/" + Spelled(cs), rel).Fail? ==> Open(fs, "/" + Spelled(cs), rel) == Fail(ENOENT)
    ensures cs != [] && cs[0] != "" ==> (Open(fs, Spelled(cs), rel) == Ok(q) <==> Reaches(fs, rel, cs, q))
    ensures Open(fs, "/", rel) == Ok(0) && Open(fs, "", rel) == Fail(EINVAL)
  {
    hide Walk, Reaches, Inv;
    StartOfSpelled(cs, rel);
    WalkIff(fs, 0, cs, q);
    WalkIff(fs, rel, cs, q);
    StartOfSpelled([], rel);
    assert "/" + Spelled([]) == "/" && Split("") == [];
    WalkIff(fs, 0, [], 0);
    NoSteps(fs, 0, 0);
  }

  lemma StartOfSpelled(cs: seq<string>, rel: nat)
    requires AllPlain(cs) && EndsInName(cs)
    ensures var path := "/" + Spelled(cs); Parse(path) == ["/"] + cs && Start(path, rel) == 0 && Names(path) == cs
    ensures cs != [] && cs[0] != "" ==>
      var path := Spelled(cs); Parse(path) == cs && Start(path, rel) == rel && Names(path) == cs
  {
    hide Parse;
    ParseSpelled(cs);
    if cs != [] && cs[0] != "" {
      assert Plain(cs[0]) && Spelled(cs)[0] == cs[0][0];
    }
  }

  ghost predicate HasChildNamed(fs: Fs, p: nat, name: string) {
    exists c: nat :: c < |fs.inodes| && IsChild(fs, p, c) && fs.inodes[c].name == name
  }

  /** A path of these components, from the root or from `rel`. */
  function PathTo(absolute: bool, cs: seq<string>): string {
    if absolute then "/" + Spelled(cs) else Spelled(cs)
  }

  function Origin(absolute: bool, rel: nat): nat {
    if absolute then 0 else rel
  }

  lemma ParentOfSpelled(absolute: bool, cs: seq<string>, name: string, rel: nat)
    requires AllPlain(cs + [name]) && name != "" && (absolute || (cs + [name])[0] != "")
    ensures var path := PathTo(absolute, cs + [name]);
      && (|Parse(path)| <= 1 <==> !absolute && cs == [])
      && Parse(path) != [] && Last(Parse(path)) == name
      && Start(path, rel) == Origin(absolute, rel)
      && Names(path) != [] && Names(path)[..|Names(path)| - 1] == cs
  {
    hide Parse, Spelled;
    StartOfSpelled(cs + [name], rel);
    assert (cs + [name])[..|cs|] == cs;
  }

  /**
   Creating `name` below the directory at the end of a trail, from the root or
   from `rel`: it fails exactly when `name` is alone and relative, is ".", or is
   taken there; otherwise the same path then leads to the new inode, a child of
   that directory.
   */
  lemma CreateSpelled(fs: Fs, absolute: bool, cs: seq<string>, name: string, rel: nat, mode: nat, q: nat)
    requires Inv(fs) && rel < |fs.inodes| && AllPlain(cs + [name]) && name != "" && (absolute || (cs + [name])[0] != "")
    requires Reaches(fs, Origin(absolute, rel), cs, q)
    ensures var path := PathTo(absolute, cs + [name]); var (fs', r) := Create(fs, path, rel, mode);
      && r == (if !absolute && cs == [] then Fail(EINVAL)
               else if name == "." || HasChildNamed(fs, q, name) then Fail(EEXIST)
               else Ok(|fs.inodes|))
      && (r.Ok? ==> IsChild(fs', q, r.inode) && r.inode < |fs'.inodes| && fs'.inodes[r.inode] == Inode(name, fs.nextNumber, mode, [])
                    && forall rel': nat :: absolute || rel' == rel ==> Open(fs', path, rel') == r)
  {
    hide Walk, Reaches, Inv, Parse, FirstNamed, PathTo, Names;
    var path := PathTo(absolute, cs + [name]);
    ParentOfSpelled(absolute, cs, name, rel);
    WalkIff(fs, Origin(absolute, rel), cs, q);
    ParentInside(fs, path, rel);
    TakenIff(fs, q, name);
    if Create(fs, path, rel, mode).1.Ok? {
      CreateThenOpen(fs, path, rel, mode);
      AddChildIff(fs, q, name, mode, q, |fs.inodes|);
      var fs' := Create(fs, path, rel, mode).0;
      forall rel': nat ensures absolute ==> Open(fs', path, rel') == Open(fs', path, rel) {
        ParentOfSpelled(absolute, cs, name, rel');
      }
    }
  }

  lemma TakenIff(fs: Fs, p: nat, name: string)
    requires Inv(fs)
    ensures Enter(fs, p, name).Some? <==> name == "." || HasChildNamed(fs, p, name)
  {
    if Child(fs, p, name).Some? {
      ChildIff(fs, p, name, Child(fs, p, name).value);
    }
    if HasChildNamed(fs, p, name) {
      var c: nat :| c < |fs.inodes| && IsChild(fs, p, c) && fs.inodes[c].name == name;
      ChildIff(fs, p, name, c);
    }
  }

  /** Nothing is created, and ENOENT is the answer, exactly when no trail leads to the directory. */
  lemma CreateNowhere(fs: Fs, absolute: bool, cs: seq<string>, name: string, rel: nat, mode: nat)
    requires Inv(fs) && AllPlain(cs + [name]) && name != "" && (absolute || (cs + [name])[0] != "")
    requires absolute || cs != []
    ensures Create(fs, PathTo(absolute, cs + [name]), rel, mode) == (fs, Fail(ENOENT)) <==>
      forall q: nat :: !Reaches(fs, Origin(absolute, rel), cs, q)
  {
    hide Reaches, Inv, Parse, FirstNamed, PathTo, Names;
    var start := Origin(absolute, rel);
    ParentOfSpelled(absolute, cs, name, rel);
    forall q: nat ensures Walk(fs, start, cs) == Some(q) <==> Reaches(fs, start, cs, q) {
      WalkIff(fs, start, cs, q);
    }
    assert Walk(fs, start, cs).Some? ==> Reaches(fs, start, cs, Walk(fs, start, cs).value);
  }

  /** On a fresh mount the root opens, and a file created under it opens to inode 1. */
  lemma FreshMount(name: string, mode: nat, rel: nat)
    requires Plain(name) && name != "" && name != "."
    ensures Open(Mounted(), "/", rel) == Ok(0)
    ensures var (fs', r) := Create(Mounted(), "/" + name, 0, mode); r == Ok(1) && Open(fs', "/" + name, rel) == Ok(1)
    ensures Create(Mounted(), name, 0, mode) == (Mounted(), Fail(EINVAL))
  {
    MountedOk();
    OpenSpelled(Mounted(), [], rel, 0);
    NoSteps(Mounted(), 0, 0);
    assert [] + [name] == [name] && Spelled([name]) == name;
    CreateSpelled(Mounted(), true, [], name, 0, mode, 0);
    CreateSucceedsIff(Mounted(), name, 0, mode);
    ParentOfSpelled(false, [], name, 0);
    assert !HasChildNamed(Mounted(), 0, name);
  }
}
