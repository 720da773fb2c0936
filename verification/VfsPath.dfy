/**
 Splitting a path into components.

 Every slash ends a component, so two slashes in a row give an empty one; a path
 that ends in a slash has no component after it.  A leading slash is a component
 of its own, "/".
 */
module VfsPath {
  import opened Collections
  import opened DoublyLinked

  const VFS_PATH_MAX: nat := 256

  predicate Plain(c: string) {
    '/' !in c
  }

  /** What the loop of `vfs_parse_path` appends with `buf` pending and `s` ahead. */
  function SplitFrom(buf: string, s: string): seq<string>
    decreases |s|
  {
    if s == "" then (if buf == "" then [] else [buf])
    else if s[0] == '/' then [buf] + SplitFrom("", s[1..])
    else SplitFrom(buf + [s[0]], s[1..])
  }

  function Split(s: string): seq<string> {
    SplitFrom("", s)
  }

  predicate Absolute(path: string) {
    path != "" && path[0] == '/'
  }

  /** `vfs_parse_path`. */
  function Parse(path: string): seq<string> {
    if Absolute(path) then ["/"] + Split(path[1..]) else Split(path)
  }

  /** The components with a slash after each. */
  function Join(cs: seq<string>): string {
    if cs == [] then "" else cs[0] + "/" + Join(cs[1..])
  }

  /** The path with the last component closed. */
  function Closed(s: string): string {
    if s == "" || s[|s| - 1] == '/' then s else s + "/"
  }

  lemma ClosedTail(s: string)
    requires |s| > 1
    ensures Closed(s) == [s[0]] + Closed(s[1..]) && Closed(s)[1..] == Closed(s[1..])
  {
    assert s == [s[0]] + s[1..] && s[1..][|s| - 2] == s[|s| - 1];
  }

  lemma ClosedAfterSlash(buf: string, s: string)
    requires s != "" && s[0] == '/'
    ensures Closed(buf + s) == buf + "/" + Closed(s[1..])
  {
    assert s == "/" + s[1..];
    if |s| > 1 {
      assert (buf + s)[|buf + s| - 1] == s[1..][|s| - 2];
    }
  }

  lemma {:induction false} SplitThenJoin(buf: string, s: string)
    requires Plain(buf)
    ensures Join(SplitFrom(buf, s)) == Closed(buf + s)
    ensures forall c :: c in SplitFrom(buf, s) ==> Plain(c)
    decreases |s|
  {
    if s == "" {
      assert buf + s == buf;
    } else if s[0] == '/' {
      SplitThenJoin("", s[1..]);
      assert "" + s[1..] == s[1..];
      ClosedAfterSlash(buf, s);
      hide Closed;
      assert ([buf] + SplitFrom("", s[1..]))[1..] == SplitFrom("", s[1..]);
    } else {
      hide Closed, Join;
      SplitThenJoin(buf + [s[0]], s[1..]);
      assert buf + [s[0]] + s[1..] == buf + s;
    }
  }

  lemma {:induction false} SplitWord(buf: string, c: string, rest: string)
    requires Plain(c)
    ensures SplitFrom(buf, c + "/" + rest) == [buf + c] + SplitFrom("", rest)
    decreases |c|
  {
    var s := c + "/" + rest;
    if c == "" {
      assert s == "/" + rest && buf + c == buf;
    } else {
      assert s[1..] == c[1..] + "/" + rest;
      SplitWord(buf + [c[0]], c[1..], rest);
      assert buf + [c[0]] + c[1..] == buf + c;
    }
  }

  lemma {:induction false} JoinThenSplit(cs: seq<string>)
    requires forall c :: c in cs ==> Plain(c)
    ensures Split(Join(cs)) == cs
  {
    if cs == [] {
    } else {
      SplitWord("", cs[0], Join(cs[1..]));
      JoinThenSplit(cs[1..]);
      assert "" + cs[0] == cs[0];
    }
  }

  lemma {:induction false} SplitOfClosed(buf: string, s: string)
    requires Plain(buf)
    ensures s != "" ==> SplitFrom(buf, Closed(s)) == SplitFrom(buf, s)
    decreases |s|
  {
    if s == "" {
    } else {
      if s[0] == '/' {
        if |s| > 1 {
          SplitOfClosed("", s[1..]);
          ClosedTail(s);
        }
      } else if |s| > 1 {
        SplitOfClosed(buf + [s[0]], s[1..]);
        ClosedTail(s);
      } else {
        assert Closed(s)[1..] == "/" && "/"[1..] == "" && s[1..] == "";
        assert SplitFrom(buf + [s[0]], "/") == [buf + [s[0]]] + SplitFrom("", "");
      }
    }
  }

  /** The split of a path is the only list of slash-free components that spells it. */
  lemma SplitIsUnique(s: string, cs: seq<string>)
    requires forall c :: c in cs ==> Plain(c)
    ensures Split(s) == cs <==> Join(cs) == Closed(s)
  {
    SplitThenJoin("", s);
    assert "" + s == s;
    if Join(cs) == Closed(s) {
      JoinThenSplit(cs);
      SplitOfClosed("", s);
    }
  }

  /** The components with a slash between each two. */
  function Spelled(cs: seq<string>): string {
    if cs == [] then "" else if |cs| == 1 then cs[0] else cs[0] + "/" + Spelled(cs[1..])
  }

  predicate AllPlain(cs: seq<string>) {
    forall c :: c in cs ==> Plain(c)
  }

  /** The list may end a path that has no slash at its end. */
  predicate EndsInName(cs: seq<string>) {
    cs == [] || cs[|cs| - 1] != ""
  }

  lemma ClosedPrefix(a: string, s: string)
    requires s != ""
    ensures Closed(a + s) == a + Closed(s)
  {
    assert (a + s)[|a + s| - 1] == s[|s| - 1];
  }

  lemma ClosedWord(c: string)
    requires Plain(c) && c != ""
    ensures Closed(c) == c + "/"
  {
    assert c[|c| - 1] in c;
  }

  lemma {:induction false} ClosedSpelled(cs: seq<string>)
    requires AllPlain(cs) && EndsInName(cs)
    ensures Closed(Spelled(cs)) == Join(cs) && (cs != [] ==> Spelled(cs) != "")
  {
    if cs == [] {
    } else if |cs| == 1 {
      ClosedWord(cs[0]);
      assert cs[1..] == [] && cs[0] + "/" + "" == cs[0] + "/";
    } else {
      hide Closed, Plain;
      ClosedSpelled(cs[1..]);
      ClosedPrefix(cs[0] + "/", Spelled(cs[1..]));
    }
  }

  lemma SplitSpelled(cs: seq<string>)
    requires AllPlain(cs) && EndsInName(cs)
    ensures Split(Spelled(cs)) == cs
  {
    ClosedSpelled(cs);
    JoinThenSplit(cs);
    SplitOfClosed("", Spelled(cs));
  }

  /**
   What a path parses to, spelled with or without a slash at its end: a leading
   slash is the component "/", and the components that are spelled follow.
   */
  lemma ParseSpelled(cs: seq<string>)
    requires AllPlain(cs)
    ensures Parse("/" + Join(cs)) == ["/"] + cs
    ensures EndsInName(cs) ==> Parse("/" + Spelled(cs)) == ["/"] + cs
    ensures cs != [] && cs[0] != "" ==> Parse(Join(cs)) == cs && (EndsInName(cs) ==> Parse(Spelled(cs)) == cs)
  {
    hide SplitFrom;
    JoinThenSplit(cs);
    assert ("/" + Join(cs))[1..] == Join(cs) && ("/" + Spelled(cs))[1..] == Spelled(cs);
    if EndsInName(cs) {
      SplitSpelled(cs);
    }
    if cs != [] && cs[0] != "" {
      assert Plain(cs[0]) && Join(cs)[0] == cs[0][0] && Spelled(cs)[0] == cs[0][0];
    }
  }

  /** The pending component is a prefix of the next one the split yields. */
  lemma {:induction false} PendingFits(buf: string, s: string)
    ensures SplitFrom(buf, s) == [] ==> buf == ""
    ensures SplitFrom(buf, s) != [] ==> buf <= SplitFrom(buf, s)[0]
    decreases |s|
  {
    if s != "" && s[0] != '/' {
      PendingFits(buf + [s[0]], s[1..]);
    }
  }

  lemma SplitUnfold(buf: string, s: string)
    requires s != ""
    ensures SplitFrom(buf, s) == if s[0] == '/' then [buf] + SplitFrom("", s[1..]) else SplitFrom(buf + [s[0]], s[1..])
  {
  }

  lemma SplitEnd(buf: string)
    ensures SplitFrom(buf, "") == if buf == "" then [] else [buf]
  {
  }

  lemma Regroup(a: seq<string>, x: string, b: seq<string>)
    ensures (a + [x]) + b == a + ([x] + b)
  {
  }

  lemma FirstOf(done: seq<string>, next: seq<string>, whole: seq<string>)
    requires done + next == whole && next != [] && forall c :: c in whole ==> |c| < VFS_PATH_MAX
    ensures |next[0]| < VFS_PATH_MAX
  {
    assert whole[|done|] == next[0];
  }

  lemma ParseStep(done: seq<string>, pending: string, ahead: string, whole: seq<string>)
    requires ahead != "" && done + SplitFrom(pending, ahead) == whole && forall c :: c in whole ==> |c| < VFS_PATH_MAX
    ensures ahead[0] == '/' ==> (done + [pending]) + SplitFrom("", ahead[1..]) == whole
    ensures ahead[0] != '/' ==> done + SplitFrom(pending + [ahead[0]], ahead[1..]) == whole && |pending| + 1 < VFS_PATH_MAX
  {
    hide SplitFrom;
    SplitUnfold(pending, ahead);
    if ahead[0] == '/' {
      Regroup(done, pending, SplitFrom("", ahead[1..]));
    } else {
      var buf := pending + [ahead[0]];
      PendingFits(buf, ahead[1..]);
      FirstOf(done, SplitFrom(buf, ahead[1..]), whole);
    }
  }

  /** `vfs_parse_path`; the component buffer holds fewer than `VFS_PATH_MAX` characters. */
  method ParsePath(path: string) returns (ret: DList<string>)
    requires forall c :: c in Parse(path) ==> |c| < VFS_PATH_MAX
    ensures ret.Valid() && fresh(ret) && fresh(ret.nodes) && ret.contents == Parse(path)
  {
    hide DList.Valid, SplitFrom;
    ret := new DList<string>();
    var start := 0;
    if path != "" && path[0] == '/' {
      ret.BackPush("/");
      start := 1;
    }
    var buf := new char[VFS_PATH_MAX](_ => '\0');
    ParseRest(ret, buf, path[start..], Parse(path));
  }

  /** The loop of `vfs_parse_path` and the component it leaves pending. */
  method ParseRest(ret: DList<string>, buf: array<char>, rest: string, ghost whole: seq<string>)
    requires ret.Valid() && buf.Length == VFS_PATH_MAX
    requires ret.contents + SplitFrom("", rest) == whole && forall c :: c in whole ==> |c| < VFS_PATH_MAX
    modifies ret, ret.nodes, buf
    ensures ret.Valid() && ret.contents == whole && forall k :: 0 <= k < |ret.nodes| ==> ret.nodes[k] in old(ret.nodes) || fresh(ret.nodes[k])
  {
    hide DList.Valid, SplitFrom;
    assert rest[0..] == rest;
    var curr := 0;
    for i := 0 to |rest|
      invariant ret.Valid() && 0 <= curr < VFS_PATH_MAX
      invariant forall k :: 0 <= k < |ret.nodes| ==> ret.nodes[k] in old(ret.nodes) || fresh(ret.nodes[k])
      invariant ret.contents + SplitFrom(buf[..curr], rest[i..]) == whole
    {
      ghost var pending, ahead := buf[..curr], rest[i..];
      ParseStep(ret.contents, pending, ahead, whole);
      assert ahead[1..] == rest[i + 1..] && ahead[0] == rest[i];
      buf[curr] := rest[i];
      if rest[i] == '/' {
        buf[curr] := '\0';
        assert buf[..curr] == pending;
        ret.BackPush(buf[..curr]);
        curr := 0;
        assert buf[..0] == "";
      } else {
        assert buf[..curr + 1] == pending + [rest[i]];
        curr := curr + 1;
      }
    }
    SplitEnd(buf[..curr]);
    assert rest[|rest|..] == "";
    if curr > 0 {
      ret.BackPush(buf[..curr]);
    }
  }
}
