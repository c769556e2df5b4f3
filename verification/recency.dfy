/** A most-recently-used list of keyed nodes with an index into it: what src/csd/shadow_cache.cpp keeps. */
module Recency {
  import opened Arith
  import opened Seqs

  // ---- the list, most recent first ----

  datatype Node<K, V> = Node(key: K, value: V)

  function KeysOf<K, V>(order: seq<Node<K, V>>): (keys: seq<K>)
    ensures |keys| == |order| && forall i :: 0 <= i < |order| ==> keys[i] == order[i].key
  {
    if order == [] then [] else [order[0].key] + KeysOf(order[1..])
  }

  function NodeOf<K(==), V>(order: seq<Node<K, V>>, key: K): (e: Node<K, V>)
    requires key in KeysOf(order)
    ensures e in order && e.key == key
  {
    if order[0].key == key then order[0]
    else
      assert KeysOf(order)[1..] == KeysOf(order[1..]);
      NodeOf(order[1..], key)
  }

  /** The list with the node of `key` taken out. */
  function Cut<K(==), V>(order: seq<Node<K, V>>, key: K): seq<Node<K, V>> {
    if order == [] then [] else if order[0].key == key then order[1..] else [order[0]] + Cut(order[1..], key)
  }

  /** One lookup: a hit moves to the front, a miss is added there with the value `drawn`, and what exceeds the
      capacity falls off the back. */
  function LookUp<K(==), V>(order: seq<Node<K, V>>, key: K, drawn: V, capacity: nat): seq<Node<K, V>> {
    if key in KeysOf(order) then
      [NodeOf(order, key)] + Cut(order, key)
    else
      ([Node(key, drawn)] + order)[..Min(capacity, |order| + 1)]
  }

  /** What a lookup does to the keys. */
  function Touch<K(==)>(keys: seq<K>, k: K, capacity: nat): seq<K> {
    if k in keys then [k] + Without(keys, k) else ([k] + keys)[..Min(capacity, |keys| + 1)]
  }

  lemma TouchIs<K(!new)>(keys: seq<K>, k: K, capacity: nat)
    requires Distinct(keys) && 0 < capacity && |keys| <= capacity
    ensures var t := Touch(keys, k, capacity);
            0 < |t| <= capacity && t[0] == k && Distinct(t) && forall x :: x in t ==> x == k || x in keys
  {
    WithoutIs(keys, k);
  }

  /** Taking a node out of the list takes its key out of the keys and loses nothing else. */
  lemma {:induction false} CutIs<K(!new), V(!new)>(order: seq<Node<K, V>>, key: K)
    ensures KeysOf(Cut(order, key)) == Without(KeysOf(order), key)
    ensures forall e :: e in Cut(order, key) ==> e in order
  {
    if order != [] {
      assert KeysOf(order)[1..] == KeysOf(order[1..]);
      if order[0].key != key {
        CutIs(order[1..], key);
        assert Cut(order, key)[1..] == Cut(order[1..], key);
      }
    }
  }

  lemma PrefixKeys<K, V>(order: seq<Node<K, V>>, n: nat)
    requires n <= |order|
    ensures KeysOf(order[..n]) == KeysOf(order)[..n]
  {
  }

  /** The keys after a lookup. */
  lemma LookUpKeys<K(!new), V(!new)>(order: seq<Node<K, V>>, key: K, drawn: V, capacity: nat)
    requires Distinct(KeysOf(order)) && 0 < capacity && |order| <= capacity
    ensures var after := LookUp(order, key, drawn, capacity);
            && KeysOf(after) == Touch(KeysOf(order), key, capacity) && 0 < |after| <= capacity
            && Distinct(KeysOf(after)) && after[0].key == key
  {
    TouchIs(KeysOf(order), key, capacity);
    if key in KeysOf(order) {
      CutIs(order, key);
      assert ([NodeOf(order, key)] + Cut(order, key))[1..] == Cut(order, key);
    } else {
      var all := [Node(key, drawn)] + order;
      assert all[1..] == order;
      PrefixKeys(all, Min(capacity, |order| + 1));
    }
  }

  /** Where the nodes after a lookup come from. */
  lemma LookUpNodes<K(!new), V(!new)>(order: seq<Node<K, V>>, key: K, drawn: V, capacity: nat)
    requires 0 < capacity
    ensures var after := LookUp(order, key, drawn, capacity);
            && after != [] && after[0] == (if key in KeysOf(order) then NodeOf(order, key) else Node(key, drawn))
            && forall e :: e in after ==> e in order || e == Node(key, drawn)
  {
    if key in KeysOf(order) {
      CutIs(order, key);
    }
  }

  /** Looking k up in the most recent keys gives the most recent keys of looking k up in all of them. */
  lemma {:induction false} TouchPrefix<K(!new)>(all: seq<K>, k: K, capacity: nat)
    requires Distinct(all) && capacity > 0
    ensures var after := [k] + Without(all, k);
            Touch(all[..Min(capacity, |all|)], k, capacity) == after[..Min(capacity, |after|)]
  {
    var n := Min(capacity, |all|);
    var rest := Without(all, k);
    WithoutIs(all, k);
    WithoutPrefix(all, k, n);
    if k in all[..n] {
      assert k in all;
      assert [k] + rest[..n - 1] == ([k] + rest)[..n];
    } else if k in all {
      assert n == capacity;
      assert rest[..n] == all[..n];
      assert ([k] + all[..n])[..n] == ([k] + rest)[..n];
    } else {
      WithoutPrefix(all, k, |all|);
      assert all[..|all|] == all && rest == all;
      assert ([k] + all[..n])[..Min(capacity, n + 1)] == ([k] + all)[..Min(capacity, |all| + 1)];
    }
  }

  /** The node first before a lookup of b is still listed after it exactly when there is room for two or b is
      its own key. */
  lemma {:induction false} FirstSurvives<K(!new), V(!new)>(order: seq<Node<K, V>>, a: K, b: K, drawn: V, capacity: nat)
    requires Distinct(KeysOf(order)) && 0 < |order| <= capacity && order[0].key == a
    ensures a in KeysOf(LookUp(order, b, drawn, capacity)) <==> capacity >= 2 || a == b
  {
    var keys := KeysOf(order);
    LookUpKeys(order, b, drawn, capacity);
    WithoutIs(keys, b);
    var t := Touch(keys, b, capacity);
    assert keys[0] == a;
    if b !in keys {
      assert capacity >= 2 ==> t[1] == a;
      assert capacity == 1 ==> t == [b];
    }
  }

  // ---- the index ----

  /** The list and the index hold the same nodes, under distinct keys. */
  ghost predicate Indexed<K(!new), V(!new)>(order: seq<Node<K, V>>, index: map<K, Node<K, V>>) {
    && Distinct(KeysOf(order))
    && (forall i :: 0 <= i < |order| ==> Placed(order[i], index))
    && Covers(KeysOf(order), index)
  }

  ghost predicate Placed<K, V>(e: Node<K, V>, index: map<K, Node<K, V>>) {
    e.key in index && index[e.key] == e
  }

  ghost predicate Covers<K(!new), V>(keys: seq<K>, index: map<K, V>) {
    forall k :: k in index ==> k in keys
  }

  lemma EvictCovers<K(!new), V>(keys: seq<K>, index: map<K, V>)
    requires keys != [] && Covers(keys, index)
    ensures Covers(keys[..|keys| - 1], index - {keys[|keys| - 1]})
  {
    var n := |keys| - 1;
    forall k | k in index && k != keys[n]
      ensures k in keys[..n]
    {
      var i :| 0 <= i < |keys| && keys[i] == k;
      assert keys[..n][i] == k;
    }
  }

  lemma EvictPlaced<K(!new), V(!new)>(order: seq<Node<K, V>>, index: map<K, Node<K, V>>, i: nat)
    requires Indexed(order, index) && i < |order| - 1
    ensures Placed(order[i], index - {order[|order| - 1].key})
  {
    assert KeysOf(order)[i] != KeysOf(order)[|order| - 1];
    assert Placed(order[i], index);
  }

  lemma {:induction false} EvictKeys<K(!new), V(!new)>(order: seq<Node<K, V>>, index: map<K, Node<K, V>>)
    requires Distinct(KeysOf(order)) && Covers(KeysOf(order), index) && order != []
    ensures Distinct(KeysOf(order[..|order| - 1]))
    ensures Covers(KeysOf(order[..|order| - 1]), index - {order[|order| - 1].key})
  {
    PrefixKeys(order, |order| - 1);
    EvictCovers(KeysOf(order), index);
  }

  lemma {:induction false} EvictKeepsIndexed<K(!new), V(!new)>(order: seq<Node<K, V>>, index: map<K, Node<K, V>>)
    requires Indexed(order, index) && order != []
    ensures Indexed(order[..|order| - 1], index - {order[|order| - 1].key})
  {
    var front, rest := order[..|order| - 1], index - {order[|order| - 1].key};
    EvictKeys(order, index);
    forall i | 0 <= i < |front|
      ensures Placed(front[i], rest)
    {
      EvictPlaced(order, index, i);
    }
  }

  lemma NotListed<K(!new), V(!new)>(order: seq<Node<K, V>>, index: map<K, Node<K, V>>, k: K)
    requires Indexed(order, index) && k !in index
    ensures k !in KeysOf(order)
  {
    forall i | 0 <= i < |order|
      ensures KeysOf(order)[i] != k
    {
      assert Placed(order[i], index);
    }
  }

  lemma PushKeys<K(!new), V(!new)>(e: Node<K, V>, order: seq<Node<K, V>>)
    ensures KeysOf([e] + order) == [e.key] + KeysOf(order)
  {
    assert ([e] + order)[1..] == order;
  }

  /** A node before a list whose nodes are placed, under a key of its own. */
  lemma {:induction false} FrontKeepsIndexed<K(!new), V(!new)>(e: Node<K, V>, rest: seq<Node<K, V>>,
                                                             index: map<K, Node<K, V>>)
    requires Distinct(KeysOf(rest)) && e.key !in KeysOf(rest) && Placed(e, index)
    requires forall i :: 0 <= i < |rest| ==> Placed(rest[i], index)
    requires forall k :: k in index ==> k == e.key || k in KeysOf(rest)
    ensures Indexed([e] + rest, index)
  {
    PushKeys(e, rest);
    forall i | 0 <= i <= |rest|
      ensures Placed(([e] + rest)[i], index)
    {
      assert i > 0 ==> ([e] + rest)[i] == rest[i - 1];
    }
  }

  lemma {:induction false} PushKeepsIndexed<K(!new), V(!new)>(order: seq<Node<K, V>>, index: map<K, Node<K, V>>,
                                                            e: Node<K, V>)
    requires Indexed(order, index) && e.key !in index
    ensures Indexed([e] + order, index[e.key := e]) && e.key !in KeysOf(order)
  {
    NotListed(order, index, e.key);
    forall i | 0 <= i < |order|
      ensures Placed(order[i], index[e.key := e])
    {
      assert Placed(order[i], index);
    }
    FrontKeepsIndexed(e, order, index[e.key := e]);
  }

  lemma {:induction false} CutPlaced<K(!new), V(!new)>(order: seq<Node<K, V>>, index: map<K, Node<K, V>>, key: K)
    requires forall i :: 0 <= i < |order| ==> Placed(order[i], index)
    ensures forall i :: 0 <= i < |Cut(order, key)| ==> Placed(Cut(order, key)[i], index)
    ensures key in KeysOf(order) ==> Placed(NodeOf(order, key), index)
  {
    if order != [] {
      assert KeysOf(order)[1..] == KeysOf(order[1..]);
      CutPlaced(order[1..], index, key);
    }
  }

  /** Taking a listed key out of the list leaves the other keys. */
  lemma {:induction false} CutKeys<K(!new), V(!new)>(order: seq<Node<K, V>>, key: K)
    requires Distinct(KeysOf(order)) && key in KeysOf(order)
    ensures |Cut(order, key)| == |order| - 1
    ensures Distinct(KeysOf(Cut(order, key))) && key !in KeysOf(Cut(order, key))
    ensures forall k :: k in KeysOf(order) ==> k == key || k in KeysOf(Cut(order, key))
  {
    CutIs(order, key);
    WithoutIs(KeysOf(order), key);
  }

  lemma {:induction false} SpliceKeepsIndexed<K(!new), V(!new)>(order: seq<Node<K, V>>,
                                                              index: map<K, Node<K, V>>, key: K)
    requires Indexed(order, index) && key in index
    ensures key in KeysOf(order) && NodeOf(order, key) == index[key]
    ensures Indexed([index[key]] + Cut(order, key), index)
    ensures |Cut(order, key)| == |order| - 1
  {
    assert key in KeysOf(order);
    CutPlaced(order, index, key);
    CutKeys(order, key);
    FrontKeepsIndexed(index[key], Cut(order, key), index);
  }

  /** The list after evicting from the back while it exceeds the capacity. */
  ghost function Trimmed<K, V>(order: seq<Node<K, V>>, capacity: nat): seq<Node<K, V>> {
    if |order| <= capacity then order else Trimmed(order[..|order| - 1], capacity)
  }

  lemma {:induction false} TrimmedIs<K, V>(order: seq<Node<K, V>>, capacity: nat)
    ensures Trimmed(order, capacity) == order[..Min(capacity, |order|)]
  {
    if |order| > capacity {
      TrimmedIs(order[..|order| - 1], capacity);
    }
  }
}
