/**
 Path resolution over the in-memory file system, as a name tree.

 An inode is a position in the table of inodes, in order of creation; inode 0 is
 the root.  Regular files have a child list too, and the source looks names up
 and creates them under a regular file as under a directory.
 */
module VfsTree {
  import opened Collections
  import opened VfsPath

  datatype Inode = Inode(name: string, number: nat, mode: nat, children: seq<nat>)

  datatype Fs = Fs(inodes: seq<Inode>, nextNumber: nat)

  datatype Errno = EINVAL | ENOENT | EEXIST

  datatype Result = Ok(inode: nat) | Fail(error: Errno)

  /** The first of `l` with this name, as `tmpfs_lookup` scans. */
  function FirstNamed(inodes: seq<Inode>, l: seq<nat>, name: string): (r: Option<nat>)
    ensures r.Some? ==> r.value in l && r.value < |inodes| && inodes[r.value].name == name
    ensures r.None? ==> forall c :: c in l && c < |inodes| ==> inodes[c].name != name
  {
    if l == [] then None
    else if l[0] < |inodes| && inodes[l[0]].name == name then Some(l[0])
    else FirstNamed(inodes, l[1..], name)
  }

  function Child(fs: Fs, p: nat, name: string): Option<nat> {
    if p < |fs.inodes| then FirstNamed(fs.inodes, fs.inodes[p].children, name) else None
  }

  /** `vfs_find_child`: "." stays. */
  function Enter(fs: Fs, p: nat, name: string): Option<nat> {
    if name == "." then Some(p) else Child(fs, p, name)
  }

  /** The loop of `vfs_find_dentry`. */
  function Walk(fs: Fs, p: nat, cs: seq<string>): Option<nat>
    decreases |cs|
  {
    if cs == [] then Some(p)
    else match Enter(fs, p, cs[0])
      case None => None
      case Some(c) => Walk(fs, c, cs[1..])
  }

  /** Where a walk starts: an absolute path at the root. */
  function Start(path: string, rel: nat): nat {
    if Absolute(path) then 0 else rel
  }

  /** The components to walk, the leading "/" dropped. */
  function Names(path: string): seq<string> {
    if Absolute(path) then Parse(path)[1..] else Parse(path)
  }

  /** `vfs_open`. */
  function Open(fs: Fs, path: string, rel: nat): Result {
    if Parse(path) == [] then Fail(EINVAL)
    else match Walk(fs, Start(path, rel), Names(path))
      case None => Fail(ENOENT)
      case Some(p) => Ok(p)
  }

  /** `vfs_find_dentry` for the parent directory. */
  function Parent(fs: Fs, path: string, rel: nat): Result {
    if |Parse(path)| <= 1 then Fail(EINVAL)
    else match Walk(fs, Start(path, rel), Names(path)[..|Names(path)| - 1])
      case None => Fail(ENOENT)
      case Some(p) => Ok(p)
  }

  function AddChild(fs: Fs, q: nat, name: string, mode: nat): Fs
    requires q < |fs.inodes|
  {
    var n := |fs.inodes|;
    Fs(fs.inodes[q := fs.inodes[q].(children := fs.inodes[q].children + [n])] + [Inode(name, fs.nextNumber, mode, [])],
       fs.nextNumber + 1)
  }

  function Last(cs: seq<string>): string
    requires cs != []
  {
    cs[|cs| - 1]
  }

  /** `vfs_mkdir` and `vfs_create`. */
  function Create(fs: Fs, path: string, rel: nat, mode: nat): (Fs, Result) {
    match Parent(fs, path, rel)
    case Fail(e) => (fs, Fail(e))
    case Ok(q) =>
      if Enter(fs, q, Last(Parse(path))).Some? || q >= |fs.inodes| then (fs, Fail(EEXIST))
      else (AddChild(fs, q, Last(Parse(path)), mode), Ok(|fs.inodes|))
  }

  /* ---- the tree ---- */

  ghost predicate IsChild(fs: Fs, p: nat, c: nat) {
    p < |fs.inodes| && c in fs.inodes[p].children
  }

  ghost predicate HasParent(fs: Fs, c: nat) {
    exists p: nat :: IsChild(fs, p, c)
  }

  /** Numbers are the creation order, every inode but the root has one parent, siblings differ in name. */
  ghost predicate Inv(fs: Fs) {
    && |fs.inodes| == fs.nextNumber > 0
    && (forall p :: 0 <= p < |fs.inodes| ==> fs.inodes[p].number == p && Distinct(fs.inodes[p].children))
    && (forall p: nat, c: nat :: IsChild(fs, p, c) ==> p < c < |fs.inodes| && fs.inodes[c].name != ".")
    && (forall p: nat, q: nat, c: nat :: IsChild(fs, p, c) && IsChild(fs, q, c) ==> p == q)
    && (forall p: nat, c: nat, d: nat :: IsChild(fs, p, c) && IsChild(fs, p, d) && fs.inodes[c].name == fs.inodes[d].name ==> c == d)
    && (forall c: nat :: 0 < c < |fs.inodes| ==> HasParent(fs, c))
  }

  /** Looking a child up by its name finds it. */
  lemma ChildIff(fs: Fs, p: nat, name: string, c: nat)
    requires Inv(fs)
    ensures Child(fs, p, name) == Some(c) <==> IsChild(fs, p, c) && fs.inodes[c].name == name
  {
  }

  /** `tmpfs_mount`: the root alone; its inode's mode is never set. */
  function Mounted(): Fs {
    Fs([Inode("/", 0, 0, [])], 1)
  }

  lemma MountedOk()
    ensures Inv(Mounted())
  {
    assert forall p: nat, c: nat :: !IsChild(Mounted(), p, c);
  }

  lemma AddChildIff(fs: Fs, q: nat, name: string, mode: nat, p: nat, c: nat)
    requires Inv(fs) && q < |fs.inodes|
    ensures IsChild(AddChild(fs, q, name, mode), p, c) <==> IsChild(fs, p, c) || (p == q && c == |fs.inodes|)
  {
  }

  lemma AddChildInodes(fs: Fs, q: nat, name: string, mode: nat)
    requires Inv(fs) && q < |fs.inodes|
    ensures var fs' := AddChild(fs, q, name, mode);
      && |fs'.inodes| == |fs.inodes| + 1 == fs'.nextNumber
      && (forall c :: 0 <= c < |fs.inodes| ==> fs'.inodes[c].name == fs.inodes[c].name)
      && fs'.inodes[|fs.inodes|].name == name
      && (forall p :: 0 <= p < |fs'.inodes| ==> fs'.inodes[p].number == p && Distinct(fs'.inodes[p].children))
  {
    var fs', n, l := AddChild(fs, q, name, mode), |fs.inodes|, fs.inodes[q].children;
    assert n !in l by {
      if n in l {
        assert IsChild(fs, q, n);
      }
    }
    assert Distinct(l + [n]);
    forall p | 0 <= p < |fs'.inodes| ensures fs'.inodes[p].number == p && Distinct(fs'.inodes[p].children) {
      assert p != q && p < n ==> Distinct(fs.inodes[p].children);
      assert p == n ==> fs'.inodes[p].children == [];
    }
  }

  lemma AddChildKeepsInv(fs: Fs, q: nat, name: string, mode: nat)
    requires Inv(fs) && q < |fs.inodes| && Enter(fs, q, name) == None
    ensures Inv(AddChild(fs, q, name, mode))
  {
    hide Distinct, AddChild, FirstNamed;
    var fs' := AddChild(fs, q, name, mode);
    AddChildInodes(fs, q, name, mode);
    forall p: nat, c: nat ensures IsChild(fs', p, c) <==> IsChild(fs, p, c) || (p == q && c == |fs.inodes|) {
      AddChildIff(fs, q, name, mode, p, c);
    }
    forall c: nat | IsChild(fs, q, c) ensures fs.inodes[c].name != name {
      ChildIff(fs, q, name, c);
    }
    forall c: nat | 0 < c < |fs'.inodes| ensures HasParent(fs', c) {
      var p: nat := if c < |fs.inodes| then ParentOf(fs, c) else q;
      assert IsChild(fs', p, c);
    }
  }

  ghost function ParentOf(fs: Fs, c: nat): (p: nat)
    requires Inv(fs) && 0 < c < |fs.inodes|
    ensures IsChild(fs, p, c) && p < c
  {
    assert HasParent(fs, c);
    var p: nat :| IsChild(fs, p, c);
    p
  }

  /** A create adds exactly one binding. */
  lemma AddsOneBinding(fs: Fs, q: nat, name: string, mode: nat, p: nat, name': string)
    requires Inv(fs) && q < |fs.inodes| && Enter(fs, q, name) == None
    ensures Child(AddChild(fs, q, name, mode), p, name') ==
      if p == q && name' == name then Some(|fs.inodes|) else Child(fs, p, name')
  {
    var fs' := AddChild(fs, q, name, mode);
    AddChildKeepsInv(fs, q, name, mode);
    forall c: nat ensures Child(fs', p, name') == Some(c) <==> Child(fs, p, name') == Some(c) || (p == q && name' == name && c == |fs.inodes|) {
      ChildIff(fs, p, name', c);
      ChildIff(fs', p, name', c);
      AddChildIff(fs, q, name, mode, p, c);
    }
  }
}
