/**
 Mounting, creating and opening on the state the kernel keeps: the table of
 inodes, the three caches, the dentries handed out.

 An inode or dentry is a position in its table; dentry 0 is the null pointer.
 Locks and memory exhaustion are not part of the model.
 */
module Vfs {
  import opened Collections
  import opened DoublyLinked
  import FifoMap
  import opened HashMap
  import opened VfsPath
  import opened VfsTree
  import opened VfsTheorems

  const BUCKETS: nat := 170  // one page of `struct dlist`
  const NO_DENTRY: nat := 0

  const S_IFDIR: nat := 0x4000
  const S_IFREG: nat := 0x8000

  /** `inode` is the private data; the stub that `vfs_init` caches for the root has none. */
  datatype Vnode = Vnode(number: nat, inode: Option<nat>, mode: nat)

  const ROOT_MODE: nat := S_IFDIR + 0x1ff

  /** `(flags & ~S_IFMT) | S_IFDIR`, or with `S_IFREG`, in 16 bits. */
  function ModeOf(flags: nat, isDir: bool): (mode: nat)
    ensures mode % 0x1000 == flags % 0x1000
    ensures mode / 0x1000 * 0x1000 == if isDir then S_IFDIR else S_IFREG
  {
    flags % 0x1000 + if isDir then S_IFDIR else S_IFREG
  }

  /** An open file. */
  datatype File = File(entry: nat, flags: nat, pos: nat)

  datatype Dentry = Dentry(name: string, parent: nat, vnode: Option<Vnode>)

  function NumberKey(number: nat): FifoMap.Key {
    [number]
  }

  /** The number and the one file system there is. */
  function VnodeKey(number: nat): FifoMap.Key {
    [0, number]
  }

  function DentryKey(parent: nat, name: string): FifoMap.Key {
    [parent] + seq(|name|, i requires 0 <= i < |name| => name[i] as nat)
  }

  /** The inode cache maps every number to its inode; of vnodes and dentries only the root is ever cached. */
  ghost predicate Cached(n: nat, hash: FifoMap.Key -> nat, tnodes: FifoMap.Buckets, vnodes: FifoMap.Buckets, dents: FifoMap.Buckets) {
    && tnodes != [] && vnodes != [] && dents != []
    && (forall k: nat :: FifoMap.QueueOf(tnodes, hash, NumberKey(k)) == if k < n then [k] else [])
    && (forall k: nat :: FifoMap.QueueOf(vnodes, hash, VnodeKey(k)) == if k == 0 then [0] else [])
    && (forall d: nat, name: string :: d != NO_DENTRY ==> FifoMap.QueueOf(dents, hash, DentryKey(d, name)) == [])
  }

  /** The step from a name through its number to an inode yields the child of that name. */
  lemma CacheYieldsChild(fs: Fs, hash: FifoMap.Key -> nat, tnodes: FifoMap.Buckets, vnodes: FifoMap.Buckets, dents: FifoMap.Buckets,
                         p: nat, name: string)
    requires VfsTree.Inv(fs) && Cached(|fs.inodes|, hash, tnodes, vnodes, dents) && Child(fs, p, name).Some?
    ensures var c := Child(fs, p, name).value;
      && c < |fs.inodes|
      && FifoMap.Lookup(vnodes, hash, VnodeKey(fs.inodes[c].number)) == None
      && FifoMap.Lookup(tnodes, hash, NumberKey(fs.inodes[c].number)) == Some(c)
  {
    var c := Child(fs, p, name).value;
    ChildIff(fs, p, name, c);
    FifoMap.LookupIsOldest(vnodes, hash, VnodeKey(c));
    FifoMap.LookupIsOldest(tnodes, hash, NumberKey(c));
  }

  /** Caching a new inode under a number that was never used before. */
  lemma CacheNext(n: nat, hash: FifoMap.Key -> nat, tnodes: FifoMap.Buckets, vnodes: FifoMap.Buckets, dents: FifoMap.Buckets)
    requires Cached(n, hash, tnodes, vnodes, dents)
    ensures Cached(n + 1, hash, FifoMap.Add(tnodes, hash, NumberKey(n), n), vnodes, dents)
  {
    hide FifoMap.QueueOf;
    forall k: nat
      ensures FifoMap.QueueOf(FifoMap.Add(tnodes, hash, NumberKey(n), n), hash, NumberKey(k)) == if k < n + 1 then [k] else []
    {
      FifoMap.AddAppends(tnodes, hash, NumberKey(n), n, NumberKey(k));
      assert NumberKey(k) == NumberKey(n) <==> k == n by {
        assert NumberKey(k)[0] == k && NumberKey(n)[0] == n;
      }
    }
  }

  /** Every dentry that was filled in leads to an inode; the root dentry to inode 0. */
  ghost predicate DentriesOk(dentries: seq<Dentry>, n: nat, root: nat) {
    && (forall d :: 0 < d < |dentries| && dentries[d].vnode.Some? ==>
          dentries[d].vnode.value.inode.Some? && dentries[d].vnode.value.inode.value < n)
    && 0 < root < |dentries| && dentries[root].vnode == Some(Vnode(0, Some(0), ROOT_MODE))
  }

  lemma MountCaches(hash: FifoMap.Key -> nat)
    ensures Cached(1, hash, FifoMap.Add(FifoMap.Empty(BUCKETS), hash, NumberKey(0), 0), FifoMap.Add(FifoMap.Empty(BUCKETS), hash, VnodeKey(0), 0),
                   FifoMap.Add(FifoMap.Empty(BUCKETS), hash, DentryKey(NO_DENTRY, "/"), 1))
  {
    hide FifoMap.Add;
    forall k: FifoMap.Key ensures FifoMap.QueueOf(FifoMap.Empty(BUCKETS), hash, k) == [] {
    }
    forall k: nat
      ensures FifoMap.QueueOf(FifoMap.Add(FifoMap.Empty(BUCKETS), hash, NumberKey(0), 0), hash, NumberKey(k)) == if k < 1 then [k] else []
      ensures FifoMap.QueueOf(FifoMap.Add(FifoMap.Empty(BUCKETS), hash, VnodeKey(0), 0), hash, VnodeKey(k)) == if k == 0 then [0] else []
    {
      FifoMap.AddAppends(FifoMap.Empty(BUCKETS), hash, NumberKey(0), 0, NumberKey(k));
      FifoMap.AddAppends(FifoMap.Empty(BUCKETS), hash, VnodeKey(0), 0, VnodeKey(k));
      assert NumberKey(k)[0] == k && VnodeKey(k)[1] == k;
    }
    forall d: nat, name: string | d != NO_DENTRY
      ensures FifoMap.QueueOf(FifoMap.Add(FifoMap.Empty(BUCKETS), hash, DentryKey(NO_DENTRY, "/"), 1), hash, DentryKey(d, name)) == []
    {
      FifoMap.AddAppends(FifoMap.Empty(BUCKETS), hash, DentryKey(NO_DENTRY, "/"), 1, DentryKey(d, name));
      assert DentryKey(d, name)[0] == d && DentryKey(NO_DENTRY, "/")[0] == NO_DENTRY;
    }
  }

  /** The null slot and the root. */
  function RootDentry(): seq<Dentry> {
    [Dentry("", NO_DENTRY, None), Dentry("/", NO_DENTRY, Some(Vnode(0, Some(0), ROOT_MODE)))]
  }

  lemma RootDentryOk()
    ensures DentriesOk(RootDentry(), 1, 1)
  {
  }

  lemma BlankKept(dentries: seq<Dentry>, n: nat, root: nat)
    requires DentriesOk(dentries, n, root)
    ensures DentriesOk(dentries + [Dentry("", NO_DENTRY, None)], n, root)
  {
  }

  lemma FilledKept(dentries: seq<Dentry>, n: nat, root: nat, d: nat, e: Dentry)
    requires DentriesOk(dentries, n, root) && d < |dentries| && dentries[d].vnode == None
    requires e.vnode.Some? && e.vnode.value.inode.Some? && e.vnode.value.inode.value < n
    ensures DentriesOk(dentries[d := e], n, root)
  {
  }

  lemma MoreInodes(dentries: seq<Dentry>, n: nat, root: nat)
    requires DentriesOk(dentries, n, root)
    ensures DentriesOk(dentries, n + 1, root)
  {
  }

  /** What is left of the components after the pops of `vfs_find_dentry`. */
  lemma WalkedNames(path: string, parent: bool)
    requires Parse(path) != [] && (parent ==> |Parse(path)| > 1)
    ensures path != ""
    ensures var kept := if parent then Parse(path)[..|Parse(path)| - 1] else Parse(path);
      && kept != [] && (path[0] == '/' <==> Absolute(path))
      && (if path[0] == '/' then kept[1..] else kept) == if parent then Names(path)[..|Names(path)| - 1] else Names(path)
  {
  }

  class FileSystem {
    const hash: FifoMap.Key -> nat
    const tnodeCache: Table
    const vnodeCache: Table
    const dentryCache: Table
    var inodes: seq<Inode>
    var nextNumber: nat
    var dentries: seq<Dentry>
    var globalRoot: nat

    ghost function View(): Fs
      reads this
    {
      Fs(inodes, nextNumber)
    }

    ghost predicate TablesOk()
      reads this, tnodeCache, tnodeCache.Repr, vnodeCache, vnodeCache.Repr, dentryCache, dentryCache.Repr
    {
      && tnodeCache.hash == hash && vnodeCache.hash == hash && dentryCache.hash == hash
      && tnodeCache.Valid() && vnodeCache.Valid() && dentryCache.Valid()
      && tnodeCache.Repr !! vnodeCache.Repr && tnodeCache.Repr !! dentryCache.Repr
      && this !in tnodeCache.Repr && this !in vnodeCache.Repr && this !in dentryCache.Repr
    }

    ghost predicate Valid()
      reads this, tnodeCache, tnodeCache.Repr, vnodeCache, vnodeCache.Repr, dentryCache, dentryCache.Repr
    {
      && TablesOk()
      && VfsTree.Inv(View())
      && Cached(|inodes|, hash, tnodeCache.buckets, vnodeCache.buckets, dentryCache.buckets)
      && DentriesOk(dentries, |inodes|, globalRoot)
    }

    /** A dentry that a lookup filled in. */
    predicate Usable(d: nat)
      reads this
    {
      0 < d < |dentries| && dentries[d].vnode.Some? && dentries[d].vnode.value.inode.Some?
    }

    function InodeOf(d: nat): nat
      requires Usable(d)
      reads this
    {
      dentries[d].vnode.value.inode.value
    }

    /** `vfs_init` with `tmpfs_mount`. */
    constructor (hash: FifoMap.Key -> nat)
      ensures Valid() && View() == Mounted() && Usable(globalRoot) && InodeOf(globalRoot) == 0
    {
      hide Cached, DentriesOk, Table.Valid, VfsTree.Inv, FifoMap.Empty, FifoMap.Add, NumberKey, VnodeKey, DentryKey;
      this.hash := hash;
      tnodeCache := new Table(BUCKETS, hash);
      vnodeCache := new Table(BUCKETS, hash);
      dentryCache := new Table(BUCKETS, hash);
      inodes := Mounted().inodes;
      nextNumber := 1;
      dentries := RootDentry();
      globalRoot := 1;
      new;
      RootDentryOk();
      MountedOk();
      MountCaches(hash);
      CacheRoot();
    }

    method CacheRoot()
      requires TablesOk() && vnodeCache.Repr !! dentryCache.Repr
      requires tnodeCache.buckets == vnodeCache.buckets == dentryCache.buckets == FifoMap.Empty(BUCKETS)
      modifies tnodeCache.Repr, vnodeCache.Repr, dentryCache.Repr
      ensures TablesOk()
      ensures tnodeCache.buckets == FifoMap.Add(FifoMap.Empty(BUCKETS), hash, NumberKey(0), 0)
      ensures vnodeCache.buckets == FifoMap.Add(FifoMap.Empty(BUCKETS), hash, VnodeKey(0), 0)
      ensures dentryCache.buckets == FifoMap.Add(FifoMap.Empty(BUCKETS), hash, DentryKey(NO_DENTRY, "/"), 1)
    {
      hide Table.Valid, FifoMap.Add, NumberKey, VnodeKey, DentryKey;
      tnodeCache.Add(NumberKey(0), 0);
      dentryCache.Add(DentryKey(NO_DENTRY, "/"), 1);
      vnodeCache.Add(VnodeKey(0), 0);
    }

    /** `tmpfs_lookup`. */
    method TmpLookup(p: nat, name: string) returns (number: Option<nat>)
      requires p < |inodes| && forall c :: c in inodes[p].children ==> c < |inodes|
      ensures number == match Child(View(), p, name) case None => None case Some(c) => Some(inodes[c].number)
    {
      var l := inodes[p].children;
      for i := 0 to |l|
        invariant FirstNamed(inodes, l, name) == FirstNamed(inodes, l[i..], name)
      {
        assert l[i..][1..] == l[i + 1..] && l[i] in l;
        if inodes[l[i]].name == name {
          return Some(inodes[l[i]].number);
        }
      }
      return None;
    }

    /** `tmpfs_has_file`. */
    method TmpHasFile(p: nat, name: string) returns (has: bool)
      requires p < |inodes| && forall c :: c in inodes[p].children ==> c < |inodes|
      ensures has == Child(View(), p, name).Some?
    {
      var number := TmpLookup(p, name);
      return number.Some?;
    }

    /** `vfs_find_vnode` with `tmpfs_create_node` behind it. */
    method FindVnode(number: nat) returns (res: Option<Vnode>)
      requires TablesOk() && Cached(|inodes|, hash, tnodeCache.buckets, vnodeCache.buckets, dentryCache.buckets)
      ensures res == if number == 0 then Some(Vnode(0, None, ROOT_MODE))
                     else if number < |inodes| then Some(Vnode(number, Some(number), inodes[number].mode)) else None
    {
      hide Table.Valid, FifoMap.Lookup, FifoMap.QueueOf, NumberKey, VnodeKey;
      FifoMap.LookupIsOldest(vnodeCache.buckets, hash, VnodeKey(number));
      FifoMap.LookupIsOldest(tnodeCache.buckets, hash, NumberKey(number));
      var hit := vnodeCache.Lookup(VnodeKey(number));
      if hit.Some? {
        return Some(Vnode(0, None, ROOT_MODE));
      }
      var tnode := tnodeCache.Lookup(NumberKey(number));
      if tnode == None {
        return None;
      }
      return Some(Vnode(number, tnode, inodes[tnode.value].mode));
    }

    /** Dentries are only ever added. */
    twostate predicate DentriesKept()
      reads this
    {
      |old(dentries)| <= |dentries| && dentries[..|old(dentries)|] == old(dentries)
    }

    /** `vfs_find_child`. */
    method FindChild(d: nat, name: string) returns (err: Option<Errno>, res: nat)
      requires Valid() && Usable(d)
      modifies this`dentries
      ensures Valid() && DentriesKept() && View() == old(View())
      ensures match Enter(View(), old(InodeOf(d)), name)
        case None => err == Some(ENOENT)
        case Some(c) =>
          && err == None && Usable(res) && InodeOf(res) == c
          && if name == "." then res == d
             else c < |inodes| && dentries[res] == Dentry(name, d, Some(Vnode(c, Some(c), inodes[c].mode)))
    {
      hide Cached, DentriesOk, Table.Valid, VfsTree.Inv, Child;
      if name == "." {
        return None, d;
      }
      ghost var p := InodeOf(d);
      InodeInside(d);
      DentryMiss(d, name);
      var hit := dentryCache.Lookup(DentryKey(d, name));
      assert hit == None;  // only the root, which has no parent, is ever cached
      res := |dentries|;
      BlankKept(dentries, |inodes|, globalRoot);
      dentries := dentries + [Dentry("", NO_DENTRY, None)];
      ChildrenInside(p);
      var number := TmpLookup(InodeOf(d), name);
      if number == None {
        return Some(ENOENT), res;
      }
      ChildNumber(p, name);
      var vnode := FindVnode(number.value);
      FilledKept(dentries, |inodes|, globalRoot, res, Dentry(name, d, vnode));
      dentries := dentries[res := Dentry(name, d, vnode)];
      return None, res;
    }

    lemma RootUsable()
      requires DentriesOk(dentries, |inodes|, globalRoot)
      ensures Usable(globalRoot) && InodeOf(globalRoot) == 0
    {
    }

    lemma InodeInside(d: nat)
      requires Usable(d) && DentriesOk(dentries, |inodes|, globalRoot)
      ensures InodeOf(d) < |inodes|
    {
    }

    lemma ChildNumber(p: nat, name: string)
      requires VfsTree.Inv(View()) && Child(View(), p, name).Some?
      ensures var c := Child(View(), p, name).value; 0 < c < |inodes| && inodes[c].number == c
    {
      ChildIff(View(), p, name, Child(View(), p, name).value);
    }

    lemma DentryMiss(d: nat, name: string)
      requires TablesOk() && d != NO_DENTRY
      requires Cached(|inodes|, hash, tnodeCache.buckets, vnodeCache.buckets, dentryCache.buckets)
      ensures dentryCache.buckets != [] && FifoMap.Lookup(dentryCache.buckets, hash, DentryKey(d, name)) == None
    {
      FifoMap.LookupIsOldest(dentryCache.buckets, hash, DentryKey(d, name));
    }

    lemma ChildrenInside(p: nat)
      requires VfsTree.Inv(View()) && p < |inodes|
      ensures forall c :: c in inodes[p].children ==> c < |inodes|
    {
      forall c | c in inodes[p].children ensures c < |inodes| {
        assert IsChild(View(), p, c);
      }
    }

    /** The inode a relative path starts from: the root's for a null dentry. */
    ghost function RelInode(rel: nat): nat
      requires rel == NO_DENTRY || Usable(rel)
      reads this
    {
      if rel == NO_DENTRY then 0 else InodeOf(rel)
    }

    /** What `vfs_find_dentry` looks for. */
    ghost function Target(path: string, rel: nat, parent: bool): Result
      requires rel == NO_DENTRY || Usable(rel)
      reads this
    {
      if parent then Parent(View(), path, RelInode(rel)) else Open(View(), path, RelInode(rel))
    }

    /** `vfs_find_dentry`. */
    method FindDentry(path: string, rel: nat, parent: bool) returns (err: Option<Errno>, res: nat)
      requires Valid() && (rel == NO_DENTRY || Usable(rel)) && forall c :: c in Parse(path) ==> |c| < VFS_PATH_MAX
      modifies this`dentries
      ensures Valid() && DentriesKept()
      ensures match old(Target(path, rel, parent))
        case Fail(e) => err == Some(e)
        case Ok(p) => err == None && Usable(res) && InodeOf(res) == p
    {
      hide Cached, DentriesOk, DList.Valid, Table.Valid, VfsTree.Inv, Parse, Names, Walk;
      var files := ParsePath(path);
      res := NO_DENTRY;
      if files.count == 0 || (files.count == 1 && parent) {
        return Some(EINVAL), res;
      }
      WalkedNames(path, parent);
      RootUsable();
      Trim(files, path, parent);
      var cur := if path[0] == '/' || rel == NO_DENTRY then globalRoot else rel;
      assert Foreign(files);
      err, res := Resolve(files, cur);
    }

    /** The pops of `vfs_find_dentry`: the last component when the parent is wanted, then a leading "/". */
    method Trim(files: DList<string>, path: string, parent: bool)
      requires files.Valid() && files.contents == Parse(path) != [] && (parent ==> |Parse(path)| > 1)
      modifies files, files.nodes
      ensures files.Valid() && forall k :: 0 <= k < |files.nodes| ==> files.nodes[k] in old(files.nodes)
      ensures files.contents == if parent then Names(path)[..|Names(path)| - 1] else Names(path)
    {
      hide DList.Valid, Parse, Names;
      WalkedNames(path, parent);
      if parent {
        var _ := files.BackPop();
      }
      if path[0] == '/' {
        var _ := files.FrontPop();
      }
    }

    /** The walking loop of `vfs_find_dentry`. */
    method Resolve(files: DList<string>, start: nat) returns (err: Option<Errno>, res: nat)
      requires Valid() && Usable(start) && files.Valid() && Foreign(files)
      modifies this`dentries, files, files.nodes
      ensures Valid() && DentriesKept()
      ensures match Walk(View(), old(InodeOf(start)), old(files.contents))
        case None => err == Some(ENOENT)
        case Some(c) => err == None && Usable(res) && InodeOf(res) == c
    {
      hide Cached, DentriesOk, DList.Valid, Table.Valid, VfsTree.Inv, Enter;
      var cur := start;
      while files.head != null
        invariant Valid() && DentriesKept() && Usable(cur) && files.Valid() && Foreign(files)
        invariant View() == old(View()) && forall k :: 0 <= k < |files.nodes| ==> files.nodes[k] in old(files.nodes)
        invariant Walk(View(), InodeOf(cur), files.contents) == old(Walk(View(), InodeOf(start), files.contents))
        decreases |files.contents|
      {
        HeadOf(files);
        var e, next := FindChild(cur, files.head.value);
        var _ := files.FrontPop();
        if e.Some? {
          return e, cur;
        }
        cur := next;
      }
      HeadOf(files);
      return None, cur;
    }

    ghost predicate Foreign(files: DList<string>)
      reads this, files, tnodeCache, vnodeCache, dentryCache
    {
      var all := tnodeCache.Repr + vnodeCache.Repr + dentryCache.Repr;
      files !in all && forall k :: 0 <= k < |files.nodes| ==> files.nodes[k] !in all
    }

    lemma HeadOf(files: DList<string>)
      requires files.Valid()
      ensures files.head == null <==> files.contents == []
      ensures files.head != null ==> files.head.value == files.contents[0]
    {
      assert files.nodes != [] ==> files.Holds(0);
    }

    /** `tmpfs_mkdir` and `tmpfs_create`, which differ only in the type bits; "." is refused before. */
    method TmpCreate(p: nat, name: string, flags: nat, isDir: bool) returns (err: Option<Errno>)
      requires Valid() && p < |inodes| && name != "."
      modifies this, tnodeCache.Repr
      ensures Valid() && dentries == old(dentries) && globalRoot == old(globalRoot) && fresh(tnodeCache.Repr - old(tnodeCache.Repr))
      ensures if Child(old(View()), p, name).Some? then err == Some(EEXIST) && View() == old(View())
              else err == None && View() == AddChild(old(View()), p, name, ModeOf(flags, isDir))
    {
      hide Cached, DentriesOk, Table.Valid, VfsTree.Inv, Child, FifoMap.Add;
      ChildrenInside(p);
      var has := TmpHasFile(p, name);
      if has {
        return Some(EEXIST);
      }
      ghost var fs := View();
      AddChildKeepsInv(fs, p, name, ModeOf(flags, isDir));
      NumbersAreOrder();
      CacheNext(|inodes|, hash, tnodeCache.buckets, vnodeCache.buckets, dentryCache.buckets);
      MoreInodes(dentries, |inodes|, globalRoot);
      var n, number := |inodes|, nextNumber;
      nextNumber := nextNumber + 1;
      inodes := inodes[p := inodes[p].(children := inodes[p].children + [n])] + [Inode(name, number, ModeOf(flags, isDir), [])];
      tnodeCache.Add(NumberKey(number), n);
      return None;
    }

    lemma NumbersAreOrder()
      requires VfsTree.Inv(View())
      ensures nextNumber == |inodes|
    {
    }

    /** `vfs_mkdir` and `vfs_create`. */
    method Create(path: string, rel: nat, flags: nat, isDir: bool) returns (err: Option<Errno>)
      requires Valid() && (rel == NO_DENTRY || Usable(rel)) && forall c :: c in Parse(path) ==> |c| < VFS_PATH_MAX
      modifies this, tnodeCache.Repr
      ensures Valid() && DentriesKept() && fresh(tnodeCache.Repr - old(tnodeCache.Repr))
      ensures var (fs', r) := VfsTree.Create(old(View()), path, old(RelInode(rel)), ModeOf(flags, isDir));
        View() == fs' && err == match r case Ok(_) => None case Fail(e) => Some(e)
    {
      hide Cached, DentriesOk, Table.Valid, VfsTree.Inv, Child, AddChild, Parent, DList.Valid, Parse;
      var parent;
      err, parent := FindDentry(path, rel, true);
      if err.Some? {
        return;
      }
      InodeInside(parent);
      var files := ParsePath(path);
      ManyComponents(path, RelInode(rel));
      LastOf(files);
      var child := files.tail.value;
      var e, dummy := FindChild(parent, child);
      if e == None {
        return Some(EEXIST);
      }
      err := TmpCreate(InodeOf(parent), child, flags, isDir);
    }

    lemma ManyComponents(path: string, rel: nat)
      requires Parent(View(), path, rel).Ok?
      ensures |Parse(path)| > 1
    {
    }

    lemma LastOf(files: DList<string>)
      requires files.Valid() && files.contents != []
      ensures files.tail != null && files.tail.value == Last(files.contents)
    {
      assert files.Holds(|files.nodes| - 1);
    }

    /** `vfs_open`: the file is written only when the path resolves. */
    method OpenFile(path: string, rel: nat, flags: nat) returns (err: Option<Errno>, fd: Option<File>)
      requires Valid() && (rel == NO_DENTRY || Usable(rel)) && forall c :: c in Parse(path) ==> |c| < VFS_PATH_MAX
      modifies this`dentries
      ensures Valid() && DentriesKept() && View() == old(View())
      ensures match Open(View(), path, old(RelInode(rel)))
        case Fail(e) => err == Some(e) && fd == None
        case Ok(p) => err == None && exists d :: fd == Some(File(d, flags, 0)) && Usable(d) && InodeOf(d) == p
    {
      var entry;
      err, entry := FindDentry(path, rel, false);
      if err.Some? {
        return err, None;
      }
      fd := Some(File(entry, flags, 0));
    }
  }
}
