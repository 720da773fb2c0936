/**
 The intrusive `list_*` functions.

 A node is an index; `next` and `prev` are the two link words of every node and
 `heads` the list heads, with `NULL` for the null pointer.  Several lists share
 one pool of nodes, as the sixteen buddy lists share the page array.

 Repair: `list_pop_front` and `list_push_front` of the source leave a stale
 `prev` behind.  The methods of `ListPool` clear it; the functions with
 `AsWritten` in their names do not, and lemmas say exactly when that matters.
 */
module IntrusiveList {
  import opened Collections

  const NULL: int := -1

  /** The node at position `i`, or null beyond either end. */
  function At(l: seq<nat>, i: int): int {
    if 0 <= i < |l| then l[i] else NULL
  }

  /** The node at position `i` points to its neighbours in `l`. */
  predicate LinkedAt(next: seq<int>, prev: seq<int>, l: seq<nat>, i: nat)
    requires i < |l| && |next| == |prev| && l[i] < |next|
  {
    next[l[i]] == At(l, i + 1) && prev[l[i]] == At(l, i - 1)
  }

  /** `l` is the list that starts at `head` and runs along `next`, with `prev` its mirror image. */
  predicate Chain(next: seq<int>, prev: seq<int>, head: int, l: seq<nat>) {
    && |next| == |prev|
    && head == At(l, 0)
    && (forall i :: 0 <= i < |l| ==> l[i] < |next|)
    && (forall i :: 0 <= i < |l| ==> LinkedAt(next, prev, l, i))
  }

  /* ---- the source's functions, unrepaired ---- */

  datatype Links = Links(next: seq<int>, prev: seq<int>, head: int)

  function PopFrontAsWritten(s: Links): Links
    requires 0 <= s.head < |s.next|
  {
    s.(head := s.next[s.head])
  }

  function PushFrontAsWritten(s: Links, n: nat): Links
    requires n < |s.next| == |s.prev| && NULL <= s.head < |s.next|
  {
    Links(s.next[n := s.head], if s.head != NULL then s.prev[s.head := n] else s.prev, n)
  }

  function RemoveNodeAsWritten(s: Links, n: nat): Links
    requires n < |s.next| == |s.prev| && NULL <= s.next[n] < |s.next| && NULL <= s.prev[n] < |s.prev|
  {
    var head := if s.head == n then s.next[n] else s.head;
    var prev := if s.next[n] != NULL then s.prev[s.next[n] := s.prev[n]] else s.prev;
    var next := if prev[n] != NULL then s.next[prev[n] := s.next[n]] else s.next;
    Links(next[n := NULL], prev[n := NULL], head)
  }

  /** The pop of the source leaves a well-formed list if and only if it empties the list. */
  lemma PopFrontAsWrittenIsSound(s: Links, l: seq<nat>)
    requires Chain(s.next, s.prev, s.head, l) && Distinct(l) && l != []
    ensures var s' := PopFrontAsWritten(s);
      Chain(s'.next, s'.prev, s'.head, l[1..]) <==> |l| == 1
  {
    var s', l' := PopFrontAsWritten(s), l[1..];
    if |l| > 1 {
      assert LinkedAt(s.next, s.prev, l, 1) && !LinkedAt(s.next, s.prev, l', 0);
    } else {
      assert LinkedAt(s.next, s.prev, l, 0);
    }
  }

  /** The push of the source leaves a well-formed list if and only if the node's `prev` was already null. */
  lemma PushFrontAsWrittenIsSound(s: Links, l: seq<nat>, n: nat)
    requires Chain(s.next, s.prev, s.head, l) && Distinct(l) && n !in l && n < |s.next|
    ensures var s' := PushFrontAsWritten(s, n);
      Chain(s'.next, s'.prev, s'.head, [n] + l) <==> s.prev[n] == NULL
  {
    var s' := PushFrontAsWritten(s, n);
    var l' := [n] + l;
    assert LinkedAt(s'.next, s'.prev, l', 0) <==> s.prev[n] == NULL by {
      assert l != [] ==> LinkedAt(s.next, s.prev, l, 0) && l[0] in l;
    }
    if s.prev[n] == NULL {
      forall i: nat | i < |l'| ensures LinkedAt(s'.next, s'.prev, l', i) {
        if i > 0 {
          assert LinkedAt(s.next, s.prev, l, i - 1) && l[i - 1] in l;
          assert i > 1 ==> l[i - 1] != l[0];
        }
      }
    }
  }

  /**
   A run of the source that writes through a node it no longer owns: node 0 is
   popped from the list 0, 1; removing node 1 then overwrites node 0's `next`,
   the word that holds the slab pointer of an allocated page.
   */
  lemma StalePrevWritesDetachedNode()
    ensures var s := Links([1, NULL], [NULL, 0], 0);
      && Chain(s.next, s.prev, s.head, [0, 1])
      && var popped := PopFrontAsWritten(s);
         popped.next[0] != NULL && RemoveNodeAsWritten(popped, 1).next[0] == NULL
  {
  }

  /** Removing a node that was just popped, and is on no list, changes no list. */
  lemma RemovingPoppedChangesNothing(s: Links, l: seq<nat>, n: nat)
    requires Chain(s.next, s.prev, s.head, l) && n !in l && n < |s.next| && s.next[n] == s.head && s.prev[n] == NULL
    ensures var s' := RemoveNodeAsWritten(s, n);
      Chain(s'.next, s'.prev, s'.head, l) && s'.head == s.head
  {
    assert l != [] ==> LinkedAt(s.next, s.prev, l, 0) && l[0] in l;
    var s' := RemoveNodeAsWritten(s, n);
    forall i: nat | i < |l| ensures LinkedAt(s'.next, s'.prev, l, i) {
      assert LinkedAt(s.next, s.prev, l, i) && l[i] in l;
    }
  }

  /* ---- repaired ---- */

  lemma ChainFrame(next: seq<int>, prev: seq<int>, next': seq<int>, prev': seq<int>, head: int, l: seq<nat>)
    requires Chain(next, prev, head, l) && |next'| == |prev'| == |next|
    requires forall x :: x in l ==> next'[x] == next[x] && prev'[x] == prev[x]
    ensures Chain(next', prev', head, l)
  {
    forall i: nat | i < |l| ensures LinkedAt(next', prev', l, i) {
      assert LinkedAt(next, prev, l, i) && l[i] in l;
    }
  }

  lemma PopKeepsChain(next: seq<int>, prev: seq<int>, head: int, l: seq<nat>, prev': seq<int>)
    requires Chain(next, prev, head, l) && Distinct(l) && l != []
    requires prev' == if |l| > 1 then prev[l[1] := NULL] else prev
    ensures next[head] == At(l, 1)
    ensures Chain(next, prev', next[head], l[1..])
  {
    var l' := l[1..];
    assert LinkedAt(next, prev, l, 0);
    forall i: nat | i < |l'| ensures LinkedAt(next, prev', l', i) {
      assert LinkedAt(next, prev, l, i + 1);
      assert i > 0 ==> l[i + 1] != l[1];
    }
  }

  lemma PushKeepsChain(next: seq<int>, prev: seq<int>, head: int, l: seq<nat>, n: nat, next': seq<int>, prev': seq<int>)
    requires Chain(next, prev, head, l) && Distinct(l) && n !in l && n < |next|
    requires next' == next[n := head]
    requires prev' == (if l != [] then prev[l[0] := n] else prev)[n := NULL]
    ensures Chain(next', prev', n, [n] + l)
  {
    var l' := [n] + l;
    forall i: nat | i < |l'| ensures LinkedAt(next', prev', l', i) {
      if i > 0 {
        assert LinkedAt(next, prev, l, i - 1) && l[i - 1] in l;
        assert i > 1 ==> l[i - 1] != l[0];
      }
    }
  }

  /** The two link writes of `list_remove_node`, before the node's own links are cleared. */
  function UnlinkNext(next: seq<int>, prev: seq<int>, l: seq<nat>, k: nat): seq<int>
    requires k < |l| && Chain(next, prev, At(l, 0), l)
  {
    assert LinkedAt(next, prev, l, k) && (k > 0 ==> LinkedAt(next, prev, l, k - 1));
    (if k > 0 then next[l[k - 1] := next[l[k]]] else next)[l[k] := NULL]
  }

  function UnlinkPrev(next: seq<int>, prev: seq<int>, l: seq<nat>, k: nat): seq<int>
    requires k < |l| && Chain(next, prev, At(l, 0), l)
  {
    assert LinkedAt(next, prev, l, k) && (k + 1 < |l| ==> LinkedAt(next, prev, l, k + 1));
    (if k + 1 < |l| then prev[l[k + 1] := prev[l[k]]] else prev)[l[k] := NULL]
  }

  lemma RemoveKeepsChain(next: seq<int>, prev: seq<int>, l: seq<nat>, k: nat)
    requires Chain(next, prev, At(l, 0), l) && Distinct(l) && k < |l|
    ensures Chain(UnlinkNext(next, prev, l, k), UnlinkPrev(next, prev, l, k),
                  if k == 0 then At(l, 1) else l[0], l[..k] + l[k + 1..])
    ensures forall x :: 0 <= x < |next| && x !in l ==>
      UnlinkNext(next, prev, l, k)[x] == next[x] && UnlinkPrev(next, prev, l, k)[x] == prev[x]
    ensures Distinct(l[..k] + l[k + 1..]) && forall x :: x in l[..k] + l[k + 1..] ==> x in l
  {
    var next', prev', l' := UnlinkNext(next, prev, l, k), UnlinkPrev(next, prev, l, k), l[..k] + l[k + 1..];
    forall i: nat | i < |l'| ensures LinkedAt(next', prev', l', i) {
      UnlinkedAt(next, prev, l, k, i);
    }
  }

  lemma UnlinkedAt(next: seq<int>, prev: seq<int>, l: seq<nat>, k: nat, i: nat)
    requires Chain(next, prev, At(l, 0), l) && Distinct(l) && k < |l| && i < |l| - 1
    ensures var l' := l[..k] + l[k + 1..];
      LinkedAt(UnlinkNext(next, prev, l, k), UnlinkPrev(next, prev, l, k), l', i)
  {
    var j := if i < k then i else i + 1;
    assert LinkedAt(next, prev, l, k);
    assert LinkedAt(next, prev, l, j) && l[j] != l[k];
    assert k > 0 && j != k - 1 ==> l[j] != l[k - 1];
    assert k + 1 < |l| && j != k + 1 ==> l[j] != l[k + 1];
  }

  /** Every list is a chain and no node is on two lists. */
  ghost predicate WellLinked(next: seq<int>, prev: seq<int>, heads: seq<int>, lists: seq<seq<nat>>) {
    && |lists| == |heads|
    && (forall h :: 0 <= h < |lists| ==> Distinct(lists[h]) && Chain(next, prev, heads[h], lists[h]))
    && (forall h, h', n :: 0 <= h < h' < |lists| && n in lists[h] ==> n !in lists[h'])
  }

  /** Relinking one list leaves the others alone. */
  lemma Relink(next: seq<int>, prev: seq<int>, heads: seq<int>, lists: seq<seq<nat>>, h: nat,
               next': seq<int>, prev': seq<int>, head': int, l': seq<nat>)
    requires WellLinked(next, prev, heads, lists) && h < |lists|
    requires |next'| == |next| && |prev'| == |prev|
    requires Distinct(l') && Chain(next', prev', head', l')
    requires forall x, g :: x in l' && 0 <= g < |lists| && g != h ==> x !in lists[g]
    requires |next| == |prev| && forall x :: 0 <= x < |next| && x !in l' && x !in lists[h] ==> next'[x] == next[x] && prev'[x] == prev[x]
    ensures WellLinked(next', prev', heads[h := head'], lists[h := l'])
  {
    forall g | 0 <= g < |lists| && g != h ensures Chain(next', prev', heads[g], lists[g]) {
      ChainFrame(next, prev, next', prev', heads[g], lists[g]);
    }
  }

  lemma Unlink(next: seq<int>, prev: seq<int>, heads: seq<int>, lists: seq<seq<nat>>, h: nat, k: nat)
    requires WellLinked(next, prev, heads, lists) && h < |lists| && k < |lists[h]|
    ensures Chain(next, prev, At(lists[h], 0), lists[h])
    ensures var l := lists[h];
      var next', prev' := UnlinkNext(next, prev, l, k), UnlinkPrev(next, prev, l, k);
      && WellLinked(next', prev', heads[h := if k == 0 then At(l, 1) else l[0]], lists[h := Remove(l, l[k])])
      && |next'| == |prev'| == |next|
      && forall x :: 0 <= x < |next| && x !in l ==> next'[x] == next[x] && prev'[x] == prev[x]
  {
    var l := lists[h];
    RemoveAt(l, k);
    RemoveKeepsChain(next, prev, l, k);
    Relink(next, prev, heads, lists, h, UnlinkNext(next, prev, l, k), UnlinkPrev(next, prev, l, k),
           if k == 0 then At(l, 1) else l[0], l[..k] + l[k + 1..]);
  }

  class ListPool {
    const heads: array<int>
    const next: array<int>
    const prev: array<int>
    ghost var lists: seq<seq<nat>>

    ghost function Repr(): set<object> {
      {this, heads, next, prev}
    }

    ghost predicate Valid()
      reads Repr()
    {
      && heads != next && heads != prev && next != prev
      && next.Length == prev.Length
      && WellLinked(next[..], prev[..], heads[..], lists)
    }

    /** Node `n` is on some list. */
    ghost predicate Listed(n: nat)
      reads this
    {
      exists h :: 0 <= h < |lists| && n in lists[h]
    }

    constructor (nodes: nat, nHeads: nat)
      ensures Valid() && fresh(Repr())
      ensures heads.Length == nHeads && next.Length == prev.Length == nodes
      ensures lists == seq(nHeads, _ => [])
    {
      heads := new int[nHeads](_ => NULL);
      next := new int[nodes](_ => NULL);
      prev := new int[nodes](_ => NULL);
      lists := seq(nHeads, _ => []);
    }

    method ListPopFront(h: nat) returns (n: nat)
      requires Valid() && h < |lists| && lists[h] != []
      modifies this, heads, next, prev
      ensures Valid()
      ensures n == old(lists[h][0]) && lists == old(lists)[h := old(lists[h])[1..]]
      ensures forall x :: 0 <= x < next.Length && !old(Listed(x)) ==> next[x] == old(next[x]) && prev[x] == old(prev[x])
    {
      ghost var l := lists[h];
      ghost var next', prev' := next[..], if |l| > 1 then prev[..][l[1] := NULL] else prev[..];
      PopKeepsChain(next[..], prev[..], heads[h], l, prev');
      Relink(next[..], prev[..], heads[..], lists, h, next', prev', next[heads[h]], l[1..]);
      n := heads[h];
      heads[h] := next[n];
      if heads[h] != NULL {
        prev[heads[h]] := NULL;  // repair
      }
      lists := lists[h := l[1..]];
      assert prev[..] == prev' && heads[..] == old(heads[..])[h := old(next[heads[h]])];
    }

    method ListPushFront(h: nat, n: nat)
      requires Valid() && h < |lists| && n < next.Length && !Listed(n)
      modifies this, heads, next, prev
      ensures Valid() && lists == old(lists)[h := [n] + old(lists[h])]
      ensures forall x :: 0 <= x < next.Length && x != n && !old(Listed(x)) ==> next[x] == old(next[x]) && prev[x] == old(prev[x])
    {
      ghost var l := lists[h];
      assert l != [] ==> LinkedAt(next[..], prev[..], l, 0);
      ghost var next', prev' := next[..][n := heads[h]], (if l != [] then prev[..][l[0] := n] else prev[..])[n := NULL];
      PushKeepsChain(next[..], prev[..], heads[h], l, n, next', prev');
      Relink(next[..], prev[..], heads[..], lists, h, next', prev', n, [n] + l);
      if heads[h] != NULL {
        prev[heads[h]] := n;
      }
      next[n] := heads[h];
      prev[n] := NULL;  // repair
      heads[h] := n;
      lists := lists[h := [n] + l];
      assert prev[..] == prev' && next[..] == next' && heads[..] == old(heads[..])[h := n];
    }

    method ListRemoveNode(h: nat, n: nat)
      requires Valid() && h < |lists| && n in lists[h]
      modifies this, heads, next, prev
      ensures Valid() && lists == old(lists)[h := Remove(old(lists[h]), n)]
      ensures n < next.Length && next[n] == prev[n] == NULL
      ensures forall x :: 0 <= x < next.Length && !old(Listed(x)) ==> next[x] == old(next[x]) && prev[x] == old(prev[x])
    {
      ghost var l := lists[h];
      ghost var k: nat :| k < |l| && l[k] == n;
      Unlink(next[..], prev[..], heads[..], lists, h, k);
      UnlinkWrites(h, n, k);
      lists := lists[h := Remove(l, n)];
    }

    /** The pointer writes of `list_remove_node`. */
    method UnlinkWrites(h: nat, n: nat, ghost k: nat)
      requires Valid() && h < |lists| && k < |lists[h]| && lists[h][k] == n
      modifies heads, next, prev
      ensures next[..] == UnlinkNext(old(next[..]), old(prev[..]), lists[h], k)
      ensures prev[..] == UnlinkPrev(old(next[..]), old(prev[..]), lists[h], k)
      ensures heads[..] == old(heads[..])[h := if k == 0 then At(lists[h], 1) else lists[h][0]]
    {
      ghost var l := lists[h];
      assert LinkedAt(next[..], prev[..], l, k);
      assert k > 0 ==> LinkedAt(next[..], prev[..], l, k - 1) && l[k] != l[0];
      assert k + 1 < |l| ==> LinkedAt(next[..], prev[..], l, k + 1);
      if heads[h] == n {
        heads[h] := next[n];
      }
      if next[n] != NULL {
        prev[next[n]] := prev[n];
      }
      if prev[n] != NULL {
        next[prev[n]] := next[n];
      }
      next[n] := NULL;
      prev[n] := NULL;
    }
  }
}
