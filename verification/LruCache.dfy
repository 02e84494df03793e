/** The doubly linked list of linked_list.h and the cache of lru_cache.h. */
module LruCache {
  import opened Options

  class Node<K(0), V(0)> {
    const key: K
    const value: V
    var prev: Node?<K, V>
    var next: Node?<K, V>

    constructor (key: K, value: V)
      ensures this.key == key && this.value == value
    {
      this.key, this.value, prev, next := key, value, null, null;
    }

    /** A sentinel: its key and value are never looked at. */
    constructor Sentinel()
    {
      prev, next := null, null;
    }
  }

  lemma MovedToEnd<T>(all: seq<T>, i: nat, x: T, end: T)
    requires i + 2 < |all|
    ensures var rest := all[..i+1] + all[i+2..];
      var moved := rest[..|rest|-1] + [x, end];
      var nodes := all[1..|all|-1];
      moved[1..|moved|-1] == nodes[..i] + nodes[i+1..] + [x]
  {
    var rest := all[..i+1] + all[i+2..];
    var moved := rest[..|rest|-1] + [x, end];
    var nodes := all[1..|all|-1];
    var result := nodes[..i] + nodes[i+1..] + [x];
    assert |moved| - 2 == |result|;
    forall k | 0 <= k < |result| ensures moved[k+1] == result[k] {
      if k < i {
        assert rest[k+1] == all[k+1] == nodes[k];
      } else if k < |nodes| - 1 {
        assert rest[k+1] == all[k+2] == nodes[k+1];
      }
    }
    assert moved[1..|moved|-1] == result;
  }

  class LinkedList<K(0), V(0)> {
    const begin: Node<K, V>
    const end: Node<K, V>
    /** All nodes from begin to end. */
    ghost var all: seq<Node<K, V>>
    /** All nodes that were ever in the list. */
    ghost var repr: set<Node<K, V>>

    /** The nodes are distinct, and both directions follow their order. */
    ghost predicate Valid()
      reads this, repr
    {
      && (forall i | 0 <= i < |all| :: all[i] in repr)
      && |all| >= 2 && all[0] == begin && all[|all|-1] == end
      && (forall i, j | 0 <= i < j < |all| :: all[i] != all[j])
      && (forall i | 0 <= i < |all| - 1 :: all[i].next == all[i+1])
      && (forall i | 0 < i < |all| :: all[i].prev == all[i-1])
      && begin.prev == begin && end.next == end
    }

    /** The nodes between the sentinels, the least recently used first. */
    ghost function Nodes(): seq<Node<K, V>>
      reads this
    {
      if |all| >= 2 then all[1..|all|-1] else []
    }

    constructor ()
      ensures Valid() && Nodes() == [] && fresh(repr)
    {
      var b := new Node<K, V>.Sentinel();
      var e := new Node<K, V>.Sentinel();
      begin, end := b, e;
      all, repr := [b, e], {b, e};
      new;
      begin.prev := begin;
      begin.next := end;
      end.prev := begin;
      end.next := end;
    }

    /** The last four assignments of push and of pushToEnd: a node becomes the last one. */
    method Link(aNode: Node<K, V>, ghost before: Node<K, V>)
      requires Valid() && aNode !in all && before == all[|all|-2]
      modifies this`all, this`repr, end`prev, before`next, aNode`prev, aNode`next
      ensures Valid() && repr == old(repr) + {aNode} && all == old(all)[..|old(all)|-1] + [aNode, end]
    {
      var last := end.prev;
      assert last == before;
      last.next := aNode;
      aNode.prev := last;
      aNode.next := end;
      end.prev := aNode;
      all := all[..|all|-1] + [aNode, end];
      repr := repr + {aNode};
    }

    method Push(key: K, value: V) returns (newNode: Node<K, V>)
      requires Valid()
      modifies this, repr
      ensures Valid() && fresh(newNode) && newNode.key == key && newNode.value == value
      ensures Nodes() == old(Nodes()) + [newNode]
      ensures repr == old(repr) + {newNode}
    {
      newNode := new Node(key, value);
      Link(newNode, all[|all|-2]);
    }

    method Pop() returns (key: K, value: V)
      requires Valid() && Nodes() != []
      modifies this, repr
      ensures Valid() && Nodes() == old(Nodes())[1..]
      ensures repr == old(repr)
      ensures key == old(Nodes())[0].key && value == old(Nodes())[0].value
    {
      var removeNode := begin.next;
      assert removeNode == all[1] && removeNode.next == all[2];
      begin.next := begin.next.next;
      begin.next.prev := begin;
      key, value := removeNode.key, removeNode.value;
      all := [begin] + all[2..];
    }

    /** The first two assignments of pushToEnd: the neighbours of a node forget it. */
    method Unlink(aNode: Node<K, V>, ghost i: nat, ghost before: Node<K, V>, ghost after: Node<K, V>)
      requires Valid() && 0 < i < |all| - 1 && all[i] == aNode && all[i-1] == before && all[i+1] == after
      modifies this`all, before`next, after`prev
      ensures Valid() && repr == old(repr) && all == old(all)[..i] + old(all)[i+1..] && aNode !in all
    {
      aNode.prev.next := aNode.next;
      aNode.next.prev := aNode.prev;
      all := all[..i] + all[i+1..];
    }

    method PushToEnd(aNode: Node<K, V>, ghost i: nat)
      requires Valid() && i < |Nodes()| && Nodes()[i] == aNode
      modifies this, repr
      ensures Valid() && Nodes() == old(Nodes()[..i] + Nodes()[i+1..]) + [aNode]
      ensures repr == old(repr)
    {
      hide Valid;
      AtLeastSentinels();
      MovedToEnd(all, i, aNode, end);
      Unlink(aNode, i + 1, all[i], all[i+2]);
      Link(aNode, all[|all|-2]);
    }

    lemma AtLeastSentinels()
      requires Valid()
      ensures |all| >= 2 && all[0] == begin && all[|all|-1] == end
      ensures forall i | 0 <= i < |all| :: all[i] in repr
    {
    }
  }

  /** The entries of the cache, the least recently used first. */
  datatype Entry<K, V> = Entry(key: K, value: V)

  ghost function ItemsOf<K(0), V(0)>(nodes: seq<Node<K, V>>): (r: seq<Entry<K, V>>)
    ensures |r| == |nodes| && forall i | 0 <= i < |nodes| :: r[i] == Entry(nodes[i].key, nodes[i].value)
  {
    if nodes == [] then [] else ItemsOf(nodes[..|nodes|-1]) + [Entry(nodes[|nodes|-1].key, nodes[|nodes|-1].value)]
  }

  /** No node is stale: the list holds every key exactly once, and nothing else. */
  ghost predicate ExactItems<K, V>(items: seq<Entry<K, V>>, keys: set<K>) {
    && (forall i, j | 0 <= i < j < |items| :: items[i].key != items[j].key)
    && (forall i | 0 <= i < |items| :: items[i].key in keys)
    && forall k | k in keys :: exists i :: 0 <= i < |items| && items[i].key == k
  }

  /** Entry i becomes the last one. */
  ghost function Renewed<K, V>(items: seq<Entry<K, V>>, i: nat): seq<Entry<K, V>>
    requires i < |items|
  {
    items[..i] + items[i+1..] + [items[i]]
  }

  /** Where entry j of the renewed list was. */
  function Source(j: nat, i: nat, n: nat): nat
    requires j < n && i < n
  {
    if j < i then j else if j == n - 1 then i else j + 1
  }

  /** Where entry i goes when entry at is renewed. */
  function Target(i: nat, at: nat, n: nat): nat
    requires i < n && at < n
  {
    if i < at then i else if i == at then n - 1 else i - 1
  }

  lemma RenewedBySource<T>(before: seq<T>, after: seq<T>, i: nat)
    requires i < |before| == |after| && forall j | 0 <= j < |after| :: after[j] == before[Source(j, i, |after|)]
    ensures after == before[..i] + before[i+1..] + [before[i]]
  {
  }

  lemma RenewedSource<K, V>(items: seq<Entry<K, V>>, i: nat)
    requires i < |items|
    ensures |Renewed(items, i)| == |items|
    ensures forall j | 0 <= j < |items| :: Renewed(items, i)[j] == items[Source(j, i, |items|)]
  {
  }

  lemma RenewedExact<K, V>(items: seq<Entry<K, V>>, i: nat, keys: set<K>)
    requires i < |items| && ExactItems(items, keys)
    ensures ExactItems(Renewed(items, i), keys)
  {
    hide Renewed;
    var r := Renewed(items, i);
    RenewedSource(items, i);
    forall k | k in keys ensures exists m :: 0 <= m < |r| && r[m].key == k {
      var j :| 0 <= j < |items| && items[j].key == k;
      var m := Target(j, i, |items|);
      assert Source(m, i, |items|) == j && r[m] == items[j];
    }
  }

  /** The last entry with a key; -1 if there is none. */
  ghost function LastIndex<K(!new), V>(items: seq<Entry<K, V>>, key: K): (i: int)
    ensures -1 <= i < |items| && (i >= 0 ==> items[i].key == key)
    ensures forall j | i < j < |items| :: items[j].key != key
  {
    if items == [] then -1
    else if items[|items|-1].key == key then |items| - 1
    else LastIndex(items[..|items|-1], key)
  }

  /** lookup points to the last node with its key. */
  ghost predicate PointsInto<K(0, !new), V(0)>(lookup: map<K, Node<K, V>>, nodes: seq<Node<K, V>>) {
    forall k | k in lookup :: PointsTo(nodes, k, lookup[k])
  }

  ghost predicate PointsTo<K(0, !new), V(0)>(nodes: seq<Node<K, V>>, k: K, node: Node<K, V>) {
    var i := LastIndex(ItemsOf(nodes), k);
    i >= 0 && nodes[i] == node
  }

  lemma NodeOf<K(0, !new), V(0)>(lookup: map<K, Node<K, V>>, nodes: seq<Node<K, V>>, key: K) returns (at: nat)
    requires PointsInto(lookup, nodes) && key in lookup
    ensures at < |nodes| && nodes[at] == lookup[key] && ItemsOf(nodes)[at] == Entry(key, lookup[key].value)
    ensures at == LastIndex(ItemsOf(nodes), key)
  {
    assert PointsTo(nodes, key, lookup[key]);
    at := LastIndex(ItemsOf(nodes), key);
  }

  lemma NodesRenewed<K(0, !new), V(0)>(lookup: map<K, Node<K, V>>, nodes: seq<Node<K, V>>, nodes': seq<Node<K, V>>, at: nat)
    requires PointsInto(lookup, nodes)
    requires at < |nodes| && nodes' == nodes[..at] + nodes[at+1..] + [nodes[at]]
    requires at == LastIndex(ItemsOf(nodes), nodes[at].key)
    ensures ItemsOf(nodes') == Renewed(ItemsOf(nodes), at)
    ensures PointsInto(lookup, nodes')
  {
    hide Renewed;
    var items := ItemsOf(nodes);
    RenewedAt(nodes, nodes', at);
    NodesAreRenewed(nodes, nodes', at);
    forall k | k in lookup ensures PointsTo(nodes', k, lookup[k]) {
      assert PointsTo(nodes, k, lookup[k]);
      LastRenewed(items, at, k);
      var i := LastIndex(items, k);
      assert Source(Target(i, at, |nodes|), at, |nodes|) == i;
    }
  }

  lemma RenewedAt<T>(before: seq<T>, after: seq<T>, at: nat)
    requires at < |before| && after == before[..at] + before[at+1..] + [before[at]]
    ensures |after| == |before| && forall j | 0 <= j < |before| :: after[j] == before[Source(j, at, |before|)]
  {
  }

  lemma NodesAreRenewed<K(0), V(0)>(nodes: seq<Node<K, V>>, nodes': seq<Node<K, V>>, at: nat)
    requires at < |nodes| == |nodes'| && forall j | 0 <= j < |nodes| :: nodes'[j] == nodes[Source(j, at, |nodes|)]
    ensures ItemsOf(nodes') == Renewed(ItemsOf(nodes), at)
  {
    RenewedBySource(ItemsOf(nodes), ItemsOf(nodes'), at);
  }

  /** Renewing the last entry with some key moves the last entry with k to its target. */
  lemma LastRenewed<K(!new), V>(items: seq<Entry<K, V>>, at: nat, k: K)
    requires at < |items| && at == LastIndex(items, items[at].key) && LastIndex(items, k) >= 0
    ensures |Renewed(items, at)| == |items|
    ensures LastIndex(Renewed(items, at), k) == Target(LastIndex(items, k), at, |items|)
  {
    hide Renewed;
    RenewedSource(items, at);
    var i, r := LastIndex(items, k), Renewed(items, at);
    var m := Target(i, at, |items|);
    assert Source(m, at, |items|) == i;
    forall j | m < j < |r| ensures r[j].key != k {
      var o := Source(j, at, |items|);
      assert r[j] == items[o];
      if o < i { assert o == at; }
    }
    LastIs(r, k, m);
  }

  lemma LastIs<K(!new), V>(items: seq<Entry<K, V>>, key: K, i: nat)
    requires i < |items| && items[i].key == key && forall j | i < j < |items| :: items[j].key != key
    ensures LastIndex(items, key) == i
  {
  }

  lemma NotEmpty<K(0, !new), V(0)>(lookup: map<K, Node<K, V>>, nodes: seq<Node<K, V>>)
    requires PointsInto(lookup, nodes) && |lookup| > 0
    ensures nodes != [] && ItemsOf(nodes) != []
  {
    assert lookup.Keys != {};
    var k :| k in lookup.Keys;
    assert PointsTo(nodes, k, lookup[k]);
  }

  lemma NodesPopped<K(0, !new), V(0)>(lookup: map<K, Node<K, V>>, nodes: seq<Node<K, V>>)
    requires PointsInto(lookup, nodes) && nodes != []
    ensures ItemsOf(nodes)[0] == Entry(nodes[0].key, nodes[0].value)
    ensures ItemsOf(nodes[1..]) == ItemsOf(nodes)[1..]
    ensures PointsInto(lookup - {nodes[0].key}, nodes[1..])
  {
    var items, rest := ItemsOf(nodes), ItemsOf(nodes[1..]);
    assert rest == items[1..];
    forall k | k in lookup && k != nodes[0].key
      ensures PointsTo(nodes[1..], k, lookup[k])
    {
      assert PointsTo(nodes, k, lookup[k]);
      LastIs(rest, k, LastIndex(items, k) - 1);
    }
  }

  lemma NodesPushed<K(0, !new), V(0)>(lookup: map<K, Node<K, V>>, nodes: seq<Node<K, V>>, node: Node<K, V>)
    requires PointsInto(lookup, nodes)
    ensures ItemsOf(nodes + [node]) == ItemsOf(nodes) + [Entry(node.key, node.value)]
    ensures PointsInto(lookup[node.key := node], nodes + [node])
  {
    assert (nodes + [node])[..|nodes|] == nodes;
    var items, more := ItemsOf(nodes), ItemsOf(nodes + [node]);
    LastIs(more, node.key, |nodes|);
    forall k | k in lookup && k != node.key
      ensures PointsTo(nodes + [node], k, lookup[k])
    {
      assert PointsTo(nodes, k, lookup[k]);
      LastIs(more, k, LastIndex(items, k));
    }
  }

  class LRUCache<K(0, ==, !new), V(0)> {
    var lookup: map<K, Node<K, V>>
    const linkedList: LinkedList<K, V>
    const maxSize: nat

    /** lookup points into the list. A node that lookup does not point to is stale. */
    ghost predicate Valid()
      reads this, linkedList, linkedList.repr
    {
      && linkedList.Valid() && maxSize > 0
      && PointsInto(lookup, linkedList.Nodes())
    }

    ghost function Items(): seq<Entry<K, V>>
      reads linkedList
    {
      ItemsOf(linkedList.Nodes())
    }

    constructor (maxSize: nat)
      requires maxSize > 0
      ensures Valid() && Items() == [] && this.maxSize == maxSize && lookup == map[]
      ensures fresh(linkedList) && fresh(linkedList.repr)
    {
      this.maxSize := maxSize;
      lookup := map[];
      linkedList := new LinkedList();
    }

    /** The value of a key, which becomes the most recently used entry. */
    method Get(key: K) returns (r: Option<V>, ghost at: nat)
      requires Valid()
      modifies linkedList, linkedList.repr
      ensures Valid()
      ensures r.Some? <==> key in lookup
      ensures key in lookup ==>
        && at < |old(Items())| && old(Items())[at] == Entry(key, r.value) && r.value == lookup[key].value
        && at == LastIndex(old(Items()), key)
        && Items() == Renewed(old(Items()), at)
      ensures key !in lookup ==> Items() == old(Items())
      ensures linkedList.repr == old(linkedList.repr)
    {
      hide LinkedList.Valid, LinkedList.Nodes, ItemsOf, PointsInto, Renewed;
      if key !in lookup {
        return None, 0;
      }
      var theNode := lookup[key];
      ghost var nodes := linkedList.Nodes();
      at := NodeOf(lookup, nodes, key);
      linkedList.PushToEnd(theNode, at);
      NodesRenewed(lookup, nodes, linkedList.Nodes(), at);
      r := Some(theNode.value);
    }

    /** put: a full cache first gives up its least recently used entry, and returns that entry's value. */
    method Put(key: K, value: V) returns (r: V)
      requires Valid()
      modifies this`lookup, linkedList, linkedList.repr
      ensures Valid()
      ensures key in lookup && lookup[key].value == value
      ensures old(|lookup|) < maxSize ==>
        && r == value && Items() == old(Items()) + [Entry(key, value)]
        && lookup.Keys == old(lookup).Keys + {key}
        && forall k | k in old(lookup) && k != key :: lookup[k] == old(lookup)[k]
      ensures old(|lookup|) >= maxSize ==>
        && old(Items()) != [] && r == old(Items())[0].value && Items() == old(Items())[1..] + [Entry(key, value)]
        && lookup.Keys == old(lookup).Keys - {old(Items())[0].key} + {key}
        && forall k | k in lookup && k != key :: k in old(lookup) && lookup[k] == old(lookup)[k]
      ensures fresh(linkedList.repr - old(linkedList.repr))
    {
      hide LinkedList.Valid, LinkedList.Nodes, ItemsOf, PointsInto;
      r := value;
      ghost var nodes := linkedList.Nodes();
      if |lookup| >= maxSize {
        NotEmpty(lookup, nodes);
        var k;
        k, r := linkedList.Pop();
        NodesPopped(lookup, nodes);
        lookup := lookup - {k};
      }
      ghost var rest := linkedList.Nodes();
      var node := linkedList.Push(key, value);
      NodesPushed(lookup, rest, node);
      lookup := lookup[key := node];
    }
  }

  // ------------------------------------------------------------- runs without stale nodes

  ghost function KeysOf<K, V>(items: seq<Entry<K, V>>): set<K> {
    set i | 0 <= i < |items| :: items[i].key
  }

  lemma {:induction false} DistinctKeys<K, V>(items: seq<Entry<K, V>>)
    requires forall i, j | 0 <= i < j < |items| :: items[i].key != items[j].key
    ensures |KeysOf(items)| == |items|
    decreases |items|
  {
    if items != [] {
      var init, last := items[..|items|-1], items[|items|-1];
      DistinctKeys(init);
      assert KeysOf(items) == KeysOf(init) + {last.key};
    }
  }

  /** Without stale nodes the list is as long as lookup. */
  lemma ExactSize<K, V>(items: seq<Entry<K, V>>, keys: set<K>)
    requires ExactItems(items, keys)
    ensures |items| == |keys|
  {
    DistinctKeys(items);
    assert KeysOf(items) == keys;
  }

  /** A put of an absent key makes no stale node, whether the cache is full or not. */
  lemma PutExact<K, V>(items: seq<Entry<K, V>>, keys: set<K>, key: K, value: V)
    requires ExactItems(items, keys) && key !in keys
    ensures ExactItems(items + [Entry(key, value)], keys + {key})
    ensures items != [] ==> ExactItems(items[1..] + [Entry(key, value)], keys - {items[0].key} + {key})
  {
    var added := items + [Entry(key, value)];
    forall k | k in keys + {key}
      ensures exists i :: 0 <= i < |added| && added[i].key == k
    {
      if k == key {
        assert added[|items|].key == k;
      } else {
        var i :| 0 <= i < |items| && items[i].key == k;
        assert added[i].key == k;
      }
    }
    if items != [] {
      var kept := items[1..] + [Entry(key, value)];
      forall k | k in keys - {items[0].key} + {key}
        ensures exists i :: 0 <= i < |kept| && kept[i].key == k
      {
        if k == key {
          assert kept[|items|-1].key == k;
        } else {
          var i :| 0 <= i < |items| && items[i].key == k;
          assert kept[i-1].key == k;
        }
      }
      assert forall i | 0 <= i < |kept| - 1 :: kept[i] == items[i+1];
    }
  }

  /** Exactly when a put leaves no stale node: the key is absent, or the evicted entry is the one it had. */
  lemma PutExactIff<K, V>(items: seq<Entry<K, V>>, keys: set<K>, key: K, value: V)
    requires ExactItems(items, keys)
    ensures ExactItems(items + [Entry(key, value)], keys + {key}) <==> key !in keys
    ensures items != [] ==>
      (ExactItems(items[1..] + [Entry(key, value)], keys - {items[0].key} + {key}) <==> key !in keys || items[0].key == key)
  {
    if key !in keys {
      PutExact(items, keys, key, value);
    } else {
      var i :| 0 <= i < |items| && items[i].key == key;
      var added := items + [Entry(key, value)];
      assert added[i].key == added[|items|].key;
      if i == 0 {
        assert forall j | 0 < j < |items| :: items[j].key != key;
        PutExact(items[1..], keys - {key}, key, value) by { ExactTail(items, keys); }
      } else {
        var kept := items[1..] + [Entry(key, value)];
        assert kept[i-1].key == kept[|items|-1].key;
      }
    }
  }

  lemma ExactTail<K, V>(items: seq<Entry<K, V>>, keys: set<K>)
    requires ExactItems(items, keys) && items != []
    ensures ExactItems(items[1..], keys - {items[0].key})
  {
    forall k | k in keys - {items[0].key}
      ensures exists i :: 0 <= i < |items[1..]| && items[1..][i].key == k
    {
      var i :| 0 <= i < |items| && items[i].key == k;
      assert items[1..][i-1].key == k;
    }
  }

  datatype Operation<K, V> = GetOf(key: K) | PutOf(key: K, value: V)

  /** The first entry with a key; behind the list if there is none. */
  ghost function IndexOf<K(!new), V>(items: seq<Entry<K, V>>, key: K): (i: nat)
    ensures i <= |items| && (i < |items| ==> items[i].key == key)
    ensures forall j | 0 <= j < i :: items[j].key != key
  {
    if items == [] || items[0].key == key then 0 else 1 + IndexOf(items[1..], key)
  }

  /** The list behind an operation on a cache without stale nodes. */
  ghost function Next<K(!new), V>(items: seq<Entry<K, V>>, op: Operation<K, V>, maxSize: nat): seq<Entry<K, V>> {
    match op
    case GetOf(k) =>
      var i := IndexOf(items, k);
      if i < |items| then Renewed(items, i) else items
    case PutOf(k, v) =>
      if |items| >= maxSize > 0 then items[1..] + [Entry(k, v)] else items + [Entry(k, v)]
  }

  ghost function After<K(!new), V>(ops: seq<Operation<K, V>>, maxSize: nat): seq<Entry<K, V>> {
    if ops == [] then [] else Next(After(ops[..|ops|-1], maxSize), ops[|ops|-1], maxSize)
  }

  /** Every put is of a key that is absent at that time. */
  ghost predicate PutsAbsent<K(!new), V>(ops: seq<Operation<K, V>>, maxSize: nat) {
    forall n | 0 <= n < |ops| && ops[n].PutOf? ::
      IndexOf(After(ops[..n], maxSize), ops[n].key) == |After(ops[..n], maxSize)|
  }

  /** When a key was last used; 0 if never. */
  ghost function LastUse<K(!new), V>(ops: seq<Operation<K, V>>, key: K): (t: nat)
    ensures t <= |ops|
  {
    if ops == [] then 0
    else if ops[|ops|-1].key == key then |ops|
    else LastUse(ops[..|ops|-1], key)
  }

  ghost predicate ByLastUse<K(!new), V>(items: seq<Entry<K, V>>, ops: seq<Operation<K, V>>) {
    forall i, j | 0 <= i < j < |items| :: LastUse(ops, items[i].key) < LastUse(ops, items[j].key)
  }

  /** Over any run of gets and of puts of absent keys, the list is ordered by last use, so that its head, which a full
      put gives up, is the least recently used entry; and it never exceeds maxSize. */
  lemma {:induction false} OrderOfLastUse<K(!new), V>(ops: seq<Operation<K, V>>, maxSize: nat)
    requires maxSize > 0 && PutsAbsent(ops, maxSize)
    ensures ByLastUse(After(ops, maxSize), ops)
    ensures |After(ops, maxSize)| <= maxSize
    decreases |ops|
  {
    if ops != [] {
      var init, op := ops[..|ops|-1], ops[|ops|-1];
      assert forall n | 0 <= n < |init| :: init[..n] == ops[..n];
      OrderOfLastUse(init, maxSize);
      assert ops[..|ops|-1] == init;
      NextInOrder(After(init, maxSize), init, op, maxSize);
      assert init + [op] == ops;
    }
  }

  lemma LastUseNext<K(!new), V>(ops: seq<Operation<K, V>>, op: Operation<K, V>, key: K)
    ensures LastUse(ops + [op], key) == if op.key == key then |ops| + 1 else LastUse(ops, key)
  {
    assert (ops + [op])[..|ops|] == ops;
  }

  /** The keys of a list in order of last use are distinct. */
  lemma NextInOrder<K(!new), V>(items: seq<Entry<K, V>>, ops: seq<Operation<K, V>>, op: Operation<K, V>, maxSize: nat)
    requires ByLastUse(items, ops) && |items| <= maxSize && maxSize > 0
    requires op.PutOf? ==> IndexOf(items, op.key) == |items|
    ensures ByLastUse(Next(items, op, maxSize), ops + [op])
    ensures |Next(items, op, maxSize)| <= maxSize
  {
    var next := Next(items, op, maxSize);
    var n := IndexOf(items, op.key);
    if op.GetOf? && n < |items| {
      RenewedSource(items, n);
    }
    hide Renewed, LastUse;
    forall i, j | 0 <= i < j < |next|
      ensures LastUse(ops + [op], next[i].key) < LastUse(ops + [op], next[j].key)
    {
      LastUseNext(ops, op, next[i].key);
      LastUseNext(ops, op, next[j].key);
      if op.GetOf? && n < |items| {
        var a, b := Source(i, n, |items|), Source(j, n, |items|);
        assert next[i] == items[a] && next[j] == items[b];
        assert a != n && items[a].key != op.key;
      }
    }
  }

  /** What Get and Put do to a cache without stale nodes is Next. */
  lemma StepIsNext<K(!new), V>(items: seq<Entry<K, V>>, keys: set<K>, key: K, at: nat, value: V, maxSize: nat)
    requires ExactItems(items, keys) && maxSize > 0
    ensures key in keys && at < |items| && items[at].key == key ==> Next(items, GetOf(key), maxSize) == Renewed(items, at)
    ensures key !in keys ==> Next(items, GetOf(key), maxSize) == items
    ensures key !in keys && |keys| >= maxSize ==> Next(items, PutOf(key, value), maxSize) == items[1..] + [Entry(key, value)]
    ensures key !in keys && |keys| < maxSize ==> Next(items, PutOf(key, value), maxSize) == items + [Entry(key, value)]
  {
    ExactSize(items, keys);
    var n := IndexOf(items, key);
    assert n < |items| ==> items[n].key in keys;
  }

  /** What an operation returns after a run: get the value of its key, put its own value, or, from a full cache, the
      value of the entry that was used less recently than all others. */
  ghost predicate Returns<K(!new), V>(ops: seq<Operation<K, V>>, op: Operation<K, V>, r: Option<V>, maxSize: nat) {
    var items := After(ops, maxSize);
    match op
    case GetOf(k) =>
      var i := IndexOf(items, k);
      r == if i < |items| then Some(items[i].value) else None
    case PutOf(_, v) =>
      if |items| < maxSize then
        r == Some(v)
      else
        && items != [] && r == Some(items[0].value)
        && forall j | 0 < j < |items| :: LastUse(ops, items[0].key) < LastUse(ops, items[j].key)
  }

  /** Over any run of gets and of puts of absent keys, from an empty cache: the list holds every key of lookup exactly
      once, in order of last use; the cache never exceeds maxSize; and a full put returns exactly the value of the least
      recently used key. */
  method Run<K(0, ==, !new), V(0)>(cache: LRUCache<K, V>, ops: seq<Operation<K, V>>) returns (returned: seq<Option<V>>)
    requires cache.Valid() && cache.Items() == [] && cache.lookup == map[]
    requires PutsAbsent(ops, cache.maxSize)
    modifies cache`lookup, cache.linkedList, cache.linkedList.repr
    ensures cache.Valid() && cache.Items() == After(ops, cache.maxSize)
    ensures ExactItems(cache.Items(), cache.lookup.Keys)
    ensures ByLastUse(cache.Items(), ops) && |cache.lookup| <= cache.maxSize
    ensures |returned| == |ops| && forall n | 0 <= n < |ops| :: Returns(ops[..n], ops[n], returned[n], cache.maxSize)
  {
    hide LRUCache.Valid, LRUCache.Items, After, ByLastUse, ExactItems, Returns, Renewed;
    returned := [];
    RunStart<K, V>(cache.maxSize);
    assert ops[..0] == [] && cache.lookup.Keys == {};
    assert cache.maxSize > 0 by { CacheIsPositive(cache); }
    for i := 0 to |ops|
      invariant cache.Valid() && cache.Items() == After(ops[..i], cache.maxSize)
      invariant ExactItems(cache.Items(), cache.lookup.Keys)
      invariant |returned| == i && forall n | 0 <= n < i :: Returns(ops[..n], ops[n], returned[n], cache.maxSize)
      invariant fresh(cache.linkedList.repr - old(cache.linkedList.repr))
    {
      PrefixInOrder(ops, i, cache.maxSize);
      ExactSize(cache.Items(), cache.lookup.Keys);
      ghost var items, keys := cache.Items(), cache.lookup.Keys;
      match ops[i] {
        case GetOf(k) =>
          var r, at := cache.Get(k);
          GetReturns(ops, i, items, keys, at, r, cache.maxSize);
          returned := returned + [r];
        case PutOf(k, v) =>
          var r := cache.Put(k, v);
          PutReturns(ops, i, items, keys, r, cache.maxSize);
          returned := returned + [Some(r)];
      }
    }
    assert ops[..|ops|] == ops;
    OrderOfLastUse(ops, cache.maxSize);
    ExactSize(cache.Items(), cache.lookup.Keys);
  }

  lemma CacheIsPositive<K(0, !new), V(0)>(cache: LRUCache<K, V>)
    requires cache.Valid()
    ensures cache.maxSize > 0
  {
  }

  lemma RunStart<K(!new), V>(maxSize: nat)
    ensures After<K, V>([], maxSize) == [] && ExactItems<K, V>([], {})
  {
  }

  /** After part of a run: the list is in order, and the next put is of an absent key. */
  lemma PrefixInOrder<K(!new), V>(ops: seq<Operation<K, V>>, i: nat, maxSize: nat)
    requires maxSize > 0 && PutsAbsent(ops, maxSize) && i < |ops|
    ensures ByLastUse(After(ops[..i], maxSize), ops[..i]) && |After(ops[..i], maxSize)| <= maxSize
    ensures After(ops[..i+1], maxSize) == Next(After(ops[..i], maxSize), ops[i], maxSize)
    ensures ops[i].PutOf? ==> IndexOf(After(ops[..i], maxSize), ops[i].key) == |After(ops[..i], maxSize)|
  {
    assert ops[..i+1][..i] == ops[..i];
    assert forall n | 0 <= n < i :: ops[..i][..n] == ops[..n] && ops[..i][n] == ops[n];
    OrderOfLastUse(ops[..i], maxSize);
  }

  lemma GetReturns<K(!new), V>(ops: seq<Operation<K, V>>, i: nat, items: seq<Entry<K, V>>, keys: set<K>, at: nat, r: Option<V>, maxSize: nat)
    requires i < |ops| && ops[i].GetOf? && maxSize > 0
    requires items == After(ops[..i], maxSize) && ExactItems(items, keys)
    requires r.Some? <==> ops[i].key in keys
    requires r.Some? ==> at < |items| && items[at] == Entry(ops[i].key, r.value)
    ensures Returns(ops[..i], ops[i], r, maxSize)
    ensures r.Some? ==> Next(items, ops[i], maxSize) == Renewed(items, at) && ExactItems(Renewed(items, at), keys)
    ensures r.None? ==> Next(items, ops[i], maxSize) == items
  {
    hide Renewed, After;
    var k := ops[i].key;
    if r.Some? {
      RenewedExact(items, at, keys);
      StepIsNext(items, keys, k, at, r.value, maxSize);
      assert IndexOf(items, k) == at;
    } else {
      assert forall j | 0 <= j < |items| :: items[j].key in keys;
    }
  }

  lemma PutReturns<K(!new), V>(ops: seq<Operation<K, V>>, i: nat, items: seq<Entry<K, V>>, keys: set<K>, r: V, maxSize: nat)
    requires i < |ops| && ops[i].PutOf? && maxSize > 0
    requires items == After(ops[..i], maxSize) && ExactItems(items, keys) && |items| == |keys| <= maxSize
    requires ByLastUse(items, ops[..i]) && IndexOf(items, ops[i].key) == |items|
    requires |keys| < maxSize ==> r == ops[i].value
    requires |keys| >= maxSize ==> items != [] && r == items[0].value
    ensures Returns(ops[..i], ops[i], Some(r), maxSize)
    ensures var e := Entry(ops[i].key, ops[i].value);
      if |keys| < maxSize then
        Next(items, ops[i], maxSize) == items + [e] && ExactItems(items + [e], keys + {e.key})
      else
        Next(items, ops[i], maxSize) == items[1..] + [e] && ExactItems(items[1..] + [e], keys - {items[0].key} + {e.key})
  {
    hide After, LastUse, ExactItems, Next;
    var k := ops[i].key;
    PutOfAbsent(items, keys, k);
    PutExact(items, keys, k, ops[i].value);
    StepIsNext(items, keys, k, 0, ops[i].value, maxSize);
  }

  lemma PutOfAbsent<K(!new), V>(items: seq<Entry<K, V>>, keys: set<K>, k: K)
    requires ExactItems(items, keys) && IndexOf(items, k) == |items|
    ensures k !in keys
  {
    assert forall j | 0 <= j < |items| :: items[j].key != k;
  }
}
