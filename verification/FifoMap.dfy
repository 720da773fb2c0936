/**
 The hash map's buckets, and the FIFO multimap they stand for: a queue of values
 for every key, whatever the hash function.
 */
module FifoMap {
  import opened Collections

  /** A key is its bytes; the size is part of it. */
  type Key = seq<nat>

  /** What an entry points to. */
  type Value = nat

  datatype Entry = Entry(hash: nat, key: Key, value: Value)

  type Buckets = seq<seq<Entry>>

  function Slot(hash: Key -> nat, n: nat, k: Key): (i: nat)
    requires n > 0
    ensures i < n
  {
    hash(k) % n
  }

  /** `hmap_init`, for `n` buckets. */
  function Empty(n: nat): (b: Buckets)
    ensures |b| == n && forall i :: 0 <= i < n ==> b[i] == []
  {
    seq(n, _ => [])
  }

  /** `hmap_add`. */
  function Add(b: Buckets, hash: Key -> nat, k: Key, v: Value): (r: Buckets)
    requires b != []
    ensures |r| == |b|
  {
    var i := Slot(hash, |b|, k);
    b[i := b[i] + [Entry(hash(k), k, v)]]
  }

  /** The first entry with key `k`. */
  function Find(l: seq<Entry>, k: Key): (i: nat)
    ensures i <= |l| && (i < |l| ==> l[i].key == k) && forall j :: 0 <= j < i ==> l[j].key != k
  {
    if l == [] || l[0].key == k then 0 else 1 + Find(l[1..], k)
  }

  /** `hmap_lookup`. */
  function Lookup(b: Buckets, hash: Key -> nat, k: Key): Option<Value>
    requires b != []
  {
    var l := b[Slot(hash, |b|, k)];
    var i := Find(l, k);
    if i < |l| then Some(l[i].value) else None
  }

  function DropFirst(l: seq<Entry>, k: Key): seq<Entry> {
    var i := Find(l, k);
    if i < |l| then l[..i] + l[i + 1..] else l
  }

  /** `hmap_remove`. */
  function Remove(b: Buckets, hash: Key -> nat, k: Key): (r: Buckets)
    requires b != []
    ensures |r| == |b|
  {
    var i := Slot(hash, |b|, k);
    b[i := DropFirst(b[i], k)]
  }

  /* ---- the multimap ---- */

  /** The values under `k`, oldest first. */
  function Values(l: seq<Entry>, k: Key): seq<Value> {
    if l == [] then []
    else (if l[0].key == k then [l[0].value] else []) + Values(l[1..], k)
  }

  function QueueOf(b: Buckets, hash: Key -> nat, k: Key): seq<Value>
    requires b != []
  {
    Values(b[Slot(hash, |b|, k)], k)
  }

  lemma {:induction false} ValuesOfConcat(l: seq<Entry>, m: seq<Entry>, k: Key)
    ensures Values(l + m, k) == Values(l, k) + Values(m, k)
  {
    if l == [] {
      assert l + m == m;
    } else {
      ValuesOfConcat(l[1..], m, k);
      assert (l + m)[1..] == l[1..] + m;
      Regroup(if l[0].key == k then [l[0].value] else [], Values(l[1..], k), Values(m, k));
    }
  }

  lemma Regroup(a: seq<Value>, b: seq<Value>, c: seq<Value>)
    ensures (a + b) + c == a + (b + c)
  {
  }

  lemma {:induction false} ValuesOfFind(l: seq<Entry>, k: Key)
    ensures Find(l, k) < |l| <==> Values(l, k) != []
    ensures Find(l, k) < |l| ==> l[Find(l, k)].value == Values(l, k)[0]
  {
    if l != [] && l[0].key != k {
      ValuesOfFind(l[1..], k);
    }
  }

  lemma DropStep(l: seq<Entry>, k: Key)
    requires l != []
    ensures DropFirst(l, k) == if l[0].key == k then l[1..] else [l[0]] + DropFirst(l[1..], k)
  {
    var i := Find(l[1..], k);
    if l[0].key != k && i < |l[1..]| {
      assert l[..i + 1] == [l[0]] + l[1..][..i] && l[i + 2..] == l[1..][i + 1..];
    }
  }

  lemma {:induction false} ValuesOfDrop(l: seq<Entry>, k: Key, k': Key)
    ensures Values(DropFirst(l, k), k') == if k' == k && Values(l, k) != [] then Values(l, k)[1..] else Values(l, k')
  {
    if l == [] {
    } else {
      DropStep(l, k);
      if l[0].key != k {
        var rest := DropFirst(l[1..], k);
        ValuesOfDrop(l[1..], k, k');
        hide DropFirst;
        assert ([l[0]] + rest)[1..] == rest;
      }
    }
  }

  lemma AddAppends(b: Buckets, hash: Key -> nat, k: Key, v: Value, k': Key)
    requires b != []
    ensures QueueOf(Add(b, hash, k, v), hash, k') == if k' == k then QueueOf(b, hash, k') + [v] else QueueOf(b, hash, k')
  {
    var e := [Entry(hash(k), k, v)];
    ValuesOfConcat(b[Slot(hash, |b|, k)], e, k');
    assert Values(e, k') == (if k' == k then [v] else []) + Values([], k');
  }

  lemma LookupIsOldest(b: Buckets, hash: Key -> nat, k: Key)
    requires b != []
    ensures Lookup(b, hash, k) == if QueueOf(b, hash, k) == [] then None else Some(QueueOf(b, hash, k)[0])
  {
    ValuesOfFind(b[Slot(hash, |b|, k)], k);
  }

  lemma RemoveDropsOldest(b: Buckets, hash: Key -> nat, k: Key, k': Key)
    requires b != []
    ensures var q := QueueOf(b, hash, k');
      QueueOf(Remove(b, hash, k), hash, k') == if k' == k && q != [] then q[1..] else q
  {
    ValuesOfDrop(b[Slot(hash, |b|, k)], k, k');
  }

  /* ---- runs ---- */

  datatype Op = Put(k: Key, v: Value) | Del(k: Key)

  function Run(b: Buckets, hash: Key -> nat, ops: seq<Op>): (r: Buckets)
    requires b != []
    ensures |r| == |b|
    decreases |ops|
  {
    if ops == [] then b
    else match ops[0]
      case Put(k, v) => Run(Add(b, hash, k, v), hash, ops[1..])
      case Del(k) => Run(Remove(b, hash, k), hash, ops[1..])
  }

  /** A plain queue under the operations on its own key. */
  function Queue(q: seq<Value>, ops: seq<Op>, k: Key): seq<Value>
    decreases |ops|
  {
    if ops == [] then q
    else if ops[0].k != k then Queue(q, ops[1..], k)
    else match ops[0]
      case Put(_, v) => Queue(q + [v], ops[1..], k)
      case Del(_) => Queue(if q == [] then q else q[1..], ops[1..], k)
  }

  /**
   Over any run, and for any hash function, every key behaves as a queue of its
   own: neither the hash nor what happens to other keys shows.
   */
  lemma {:induction false} RunRefinesQueues(b: Buckets, hash: Key -> nat, ops: seq<Op>, k: Key)
    requires b != []
    ensures QueueOf(Run(b, hash, ops), hash, k) == Queue(QueueOf(b, hash, k), ops, k)
    ensures Lookup(Run(b, hash, ops), hash, k) ==
      (var q := Queue(QueueOf(b, hash, k), ops, k); if q == [] then None else Some(q[0]))
    decreases |ops|
  {
    hide Add, Remove, QueueOf, Lookup;
    LookupIsOldest(Run(b, hash, ops), hash, k);
    if ops == [] {
    } else {
      match ops[0]
      case Put(k1, v) =>
        AddAppends(b, hash, k1, v, k);
        RunRefinesQueues(Add(b, hash, k1, v), hash, ops[1..], k);
      case Del(k1) =>
        RemoveDropsOldest(b, hash, k1, k);
        RunRefinesQueues(Remove(b, hash, k1), hash, ops[1..], k);
    }
  }

  /** So the hash function and the number of buckets cannot be told apart from outside. */
  lemma HashIsInvisible(n: nat, hash: Key -> nat, n': nat, hash': Key -> nat, ops: seq<Op>, k: Key)
    requires n > 0 && n' > 0
    ensures Lookup(Run(Empty(n), hash, ops), hash, k) == Lookup(Run(Empty(n'), hash', ops), hash', k)
  {
    RunRefinesQueues(Empty(n), hash, ops, k);
    RunRefinesQueues(Empty(n'), hash', ops, k);
  }
}
