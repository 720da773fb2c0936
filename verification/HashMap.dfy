/**
 The hash map on its array of linked bucket lists.

 The source never increments its entry count, so the array is never resized.
 */
module HashMap {
  import opened Collections
  import opened DoublyLinked
  import opened FifoMap

  /** A scan that has passed `i` other keys and stands on `k`, or at the end, has found the first `k`. */
  lemma {:induction false} FindFrom(l: seq<Entry>, i: nat, k: Key)
    requires i <= |l| && forall j :: 0 <= j < i ==> l[j].key != k
    requires i < |l| ==> l[i].key == k
    ensures Find(l, k) == i
  {
    if i == 0 {
    } else {
      FindFrom(l[1..], i - 1, k);
    }
  }

  ghost predicate Apart(d: DList<Entry>, e: DList<Entry>)
    reads d, e
  {
    d != e && forall n :: n in d.nodes ==> n !in e.nodes
  }

  class Table {
    const buf: seq<DList<Entry>>
    const hash: Key -> nat
    ghost var buckets: Buckets
    ghost var Repr: set<object>

    /** The bucket lists are well formed, share no node, and hold `buckets`. */
    ghost predicate Valid()
      reads this, Repr
      ensures Valid() ==> this in Repr
    {
      && this in Repr && (forall d :: d in buf ==> d in Repr)
      && (forall i, n :: 0 <= i < |buf| && n in buf[i].nodes ==> n in Repr)
      && |buf| == |buckets| > 0
      && (forall i :: 0 <= i < |buf| ==> buf[i].Valid() && buf[i].contents == buckets[i])
      && (forall i, j :: 0 <= i < |buf| && 0 <= j < |buf| && i != j ==> Apart(buf[i], buf[j]))
    }

    constructor (n: nat, hash: Key -> nat)
      requires n > 0
      ensures Valid() && |buf| == n && this.hash == hash && buckets == Empty(n)
      ensures fresh(Repr)
    {
      var lists: seq<DList<Entry>> := [];
      for i := 0 to n
        invariant |lists| == i
        invariant forall j :: 0 <= j < i ==> fresh(lists[j]) && lists[j].Valid() && lists[j].contents == [] && lists[j].nodes == []
        invariant forall j, m :: 0 <= j < m < i ==> lists[j] != lists[m]
      {
        var d := new DList<Entry>();
        lists := lists + [d];
      }
      this.hash := hash;
      buf := lists;
      buckets := Empty(n);
      Repr := {this} + (set d | d in lists :: d as object);
    }

    /** `hmap_add`. */
    method Add(key: Key, value: Value)
      requires Valid()
      modifies Repr
      ensures Valid() && buckets == FifoMap.Add(old(buckets), hash, key, value)
      ensures fresh(Repr - old(Repr))
    {
      hide DList.Valid;
      var i := Slot(hash, |buf|, key);
      buf[i].BackPush(Entry(hash(key), key, value));
      OneBucket(i);
      Repr := Repr + {buf[i].tail};
      buckets := buckets[i := buckets[i] + [Entry(hash(key), key, value)]];
    }

    /** `hmap_lookup`. */
    method Lookup(key: Key) returns (value: Option<Value>)
      requires Valid()
      ensures value == FifoMap.Lookup(buckets, hash, key)
    {
      var i := Slot(hash, |buf|, key);
      var curr := Scan(i, key);
      value := if curr == null then None else Some(curr.value.value);
    }

    /** The walk along a bucket that lookup and removal share. */
    method Scan(i: nat, key: Key) returns (curr: DNode?<Entry>)
      requires Valid() && i < |buf|
      ensures |buckets| == |buf|
      ensures curr == null <==> Find(buckets[i], key) == |buckets[i]|
      ensures curr != null ==> var k := Find(buckets[i], key);
        k < |buf[i].nodes| == |buckets[i]| && buf[i].nodes[k] == curr && curr.value == buckets[i][k]
    {
      ghost var l := buckets[i];
      assert buf[i].Valid() && buf[i].contents == l;
      ghost var k := 0;
      curr := buf[i].head;
      while curr != null
        invariant 0 <= k <= |l| && curr == NodeAt(buf[i].nodes, k)
        invariant forall j :: 0 <= j < k ==> l[j].key != key
        decreases |l| - k
      {
        assert buf[i].Holds(k);
        if |curr.value.key| == |key| && curr.value.key == key {
          FindFrom(l, k, key);
          return;
        }
        curr := curr.next;
        k := k + 1;
      }
      FindFrom(l, k, key);
    }

    /** `hmap_remove`. */
    method Remove(key: Key)
      requires Valid()
      modifies Repr
      ensures Valid() && buckets == FifoMap.Remove(old(buckets), hash, key)
      ensures Repr == old(Repr)
    {
      var i := Slot(hash, |buf|, key);
      hide Valid;
      var curr := Scan(i, key);
      assert buckets[i := buckets[i]] == buckets;
      if curr != null {
        RemoveFrom(i, curr, Find(buckets[i], key));
      }
    }

    method RemoveFrom(i: nat, item: DNode<Entry>, ghost k: nat)
      requires Valid() && i < |buf| && k < |buf[i].nodes| && buf[i].nodes[k] == item && |buf[i].nodes| == |buckets[i]|
      modifies Repr
      ensures Valid() && buckets == old(buckets)[i := Without(old(buckets)[i], k)]
      ensures Repr == old(Repr)
    {
      hide DList.Valid, Without;
      buf[i].RemoveItem(item, k);
      OneBucket(i);
      buckets := buckets[i := Without(buckets[i], k)];
    }

    /** What a change to bucket `i` alone leaves as it was. */
    twostate lemma OneBucket(i: nat)
      requires i < |buf| && old(Valid())
      requires forall j :: 0 <= j < |buf| && j != i ==> unchanged(buf[j]) && forall n :: n in buf[j].nodes ==> unchanged(n)
      requires forall n :: n in buf[i].nodes ==> n in old(buf[i].nodes) || fresh(n)
      ensures forall j :: 0 <= j < |buf| && j != i ==> buf[j].Valid() && buf[j].contents == old(buf[j].contents)
      ensures forall j, m :: 0 <= j < |buf| && 0 <= m < |buf| && j != m ==> Apart(buf[j], buf[m])
    {
      forall j | 0 <= j < |buf| && j != i ensures buf[j].Valid() && buf[j].contents == old(buf[j].contents) {
        buf[j].StaysValid();
      }
    }
  }
}
