/**
 The `dlist_*` functions: a counted double-ended queue of heap nodes.

 `contents` is what the nodes hold, head first.
 */
module DoublyLinked {
  import opened Collections

  class DNode<V> {
    var value: V
    var next: DNode?<V>
    var prev: DNode?<V>

    constructor (value: V, next: DNode?<V>, prev: DNode?<V>)
      ensures this.value == value && this.next == next && this.prev == prev
    {
      this.value, this.next, this.prev := value, next, prev;
    }
  }

  ghost function NodeAt<V>(ns: seq<DNode<V>>, i: int): DNode?<V> {
    if 0 <= i < |ns| then ns[i] else null
  }

  ghost predicate DistinctNodes<V>(ns: seq<DNode<V>>) {
    forall i, j :: 0 <= i < j < |ns| ==> ns[i] != ns[j]
  }

  /** `s` without position `k`. */
  function Without<T>(s: seq<T>, k: nat): (r: seq<T>)
    requires k < |s|
    ensures |r| == |s| - 1
    ensures forall i :: 0 <= i < |r| ==> r[i] == if i < k then s[i] else s[i + 1]
    ensures forall x :: x in r ==> x in s
  {
    s[..k] + s[k + 1..]
  }

  class DList<V> {
    var head: DNode?<V>
    var tail: DNode?<V>
    var count: nat
    ghost var nodes: seq<DNode<V>>
    ghost var contents: seq<V>

    /** Node `i` holds item `i` and points to its neighbours. */
    ghost predicate Holds(i: nat)
      requires i < |nodes| && i < |contents|
      reads this, nodes
    {
      nodes[i].value == contents[i] && nodes[i].next == NodeAt(nodes, i + 1) && nodes[i].prev == NodeAt(nodes, i - 1)
    }

    ghost predicate Valid()
      reads this, nodes
      ensures Valid() ==> count == |nodes| == |contents|
    {
      && DistinctNodes(nodes)
      && head == NodeAt(nodes, 0) && tail == NodeAt(nodes, |nodes| - 1)
      && count == |nodes| == |contents|
      && (forall i :: 0 <= i < |nodes| ==> Holds(i))
    }

    twostate lemma StaysValid()
      requires old(Valid()) && unchanged(this) && forall n :: n in nodes ==> unchanged(n)
      ensures Valid()
    {
      forall i: nat | i < |nodes| ensures Holds(i) {
        assert old(Holds(i)) && nodes[i] in nodes;
      }
    }

    constructor ()
      ensures Valid() && fresh(this) && nodes == [] && contents == []
    {
      head, tail, count := null, null, 0;
      nodes, contents := [], [];
    }

    method FrontPush(value: V)
      requires Valid()
      modifies this, nodes
      ensures Valid() && contents == [value] + old(contents)
      ensures nodes != [] && fresh(nodes[0]) && nodes == [nodes[0]] + old(nodes)
    {
      assert nodes != [] ==> Holds(0);
      var node := new DNode(value, head, null);
      if head != null {
        head.prev := node;
      }
      head := node;
      if tail == null {
        tail := head;
      }
      count := count + 1;
      nodes, contents := [node] + nodes, [value] + contents;
      forall i: nat | i < |nodes| ensures Holds(i) {
        assert i > 1 ==> old(Holds(i - 1)) && old(nodes[i - 1] != nodes[0]);
      }
    }

    method FrontPop() returns (value: Option<V>)
      requires Valid()
      modifies this, nodes
      ensures Valid() && nodes == old(if nodes == [] then [] else nodes[1..])
      ensures if old(contents) == [] then value == None && contents == []
              else value == Some(old(contents)[0]) && contents == old(contents)[1..]
    {
      if head == null {
        return None;
      }
      assert Holds(0) && (|nodes| > 1 ==> Holds(1));
      var ret := head;
      if ret.next != null {
        ret.next.prev := null;
      }
      head := head.next;
      if head == null {
        tail := null;
      }
      count := count - 1;
      ret.next := null;
      value := Some(ret.value);
      nodes, contents := nodes[1..], contents[1..];
      forall i: nat | i < |nodes| ensures Holds(i) {
        assert old(Holds(i + 1)) && old(nodes[0] != nodes[i + 1]) && (i > 0 ==> old(nodes[1] != nodes[i + 1]));
      }
    }

    method BackPush(value: V)
      requires Valid()
      modifies this, nodes
      ensures Valid() && contents == old(contents) + [value]
      ensures nodes != [] && fresh(nodes[|nodes| - 1]) && tail == nodes[|nodes| - 1] && nodes == old(nodes) + [nodes[|nodes| - 1]]
    {
      assert nodes != [] ==> Holds(|nodes| - 1);
      var node := new DNode(value, null, tail);
      if tail != null {
        tail.next := node;
      }
      tail := node;
      if head == null {
        head := tail;
      }
      count := count + 1;
      nodes, contents := nodes + [node], contents + [value];
      forall i: nat | i < |nodes| ensures Holds(i) {
        assert i < |nodes| - 1 ==> old(Holds(i)) && (i < |nodes| - 2 ==> old(nodes[i] != nodes[|nodes| - 1]));
      }
    }

    /** The source dereferences the tail, so the list may not be empty. */
    method BackPop() returns (value: V)
      requires Valid() && contents != []
      modifies this, nodes
      ensures Valid() && nodes == old(nodes[..|nodes| - 1])
      ensures value == old(contents[|contents| - 1]) && contents == old(contents[..|contents| - 1])
    {
      assert Holds(|nodes| - 1) && (|nodes| > 1 ==> Holds(|nodes| - 2));
      ghost var n := |nodes| - 1;
      var ret := tail;
      if ret.prev != null {
        ret.prev.next := null;
      }
      tail := tail.prev;
      if tail == null {
        head := null;
      }
      count := count - 1;
      ret.prev := null;
      value := ret.value;
      nodes, contents := nodes[..n], contents[..n];
      forall i: nat | i < |nodes| ensures Holds(i) {
        assert old(Holds(i)) && old(nodes[i] != nodes[n]) && (i < n - 1 ==> old(nodes[i] != nodes[n - 1]));
      }
    }

    /** `dlist_remove_item`, at the head, at the tail or between. */
    method RemoveItem(item: DNode<V>, ghost k: nat)
      requires Valid() && k < |nodes| && nodes[k] == item
      modifies this, nodes
      ensures Valid() && nodes == old(Without(nodes, k)) && contents == old(Without(contents, k))
    {
      if item == head {
        assert k == 0;
        var _ := FrontPop();
        return;
      }
      if item == tail {
        assert k == |nodes| - 1;
        var _ := BackPop();
        return;
      }
      assert Holds(k) && Holds(k - 1) && Holds(k + 1);
      item.next.prev := item.prev;
      item.prev.next := item.next;
      count := count - 1;
      nodes, contents := Without(nodes, k), Without(contents, k);
      forall i: nat | i < |nodes| ensures Holds(i) {
        var j := if i < k then i else i + 1;
        assert old(Holds(j)) && old(j < k - 1 || j == k - 1 ==> nodes[j] != nodes[k + 1]);
        assert old(j != k - 1 ==> nodes[j] != nodes[k - 1]) && old(j != k + 1 ==> nodes[j] != nodes[k + 1]);
      }
    }
  }
}
