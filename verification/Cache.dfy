/** The cache object: a hash map into the nodes of a doubly linked list between two sentinels,
    rewired in place. `Contents` is the list it stands for; every operation is proved to do to it
    exactly what `Lru` says. */
module CacheObject {
  import opened Options
  import opened Lru

  class Node<V(0)> {
    var key: string
    var value: V
    var prev: Node?<V>
    var next: Node?<V>

    /** A sentinel; its key and value are never read. */
    constructor Sentinel()
      ensures fresh(this)
    {
      key := "";
      prev, next := null, null;
    }

    constructor (key: string, value: V)
      ensures this.key == key && this.value == value
    {
      this.key, this.value := key, value;
      prev, next := null, null;
    }
  }

  /** Neighbours point at each other and no node occurs twice. */
  ghost predicate Linked<V(0)>(chain: seq<Node<V>>)
    reads chain`prev, chain`next
  {
    && (forall i :: 0 <= i < |chain| - 1 ==> chain[i].next == chain[i + 1])
    && (forall i :: 0 < i < |chain| ==> chain[i].prev == chain[i - 1])
    && NoRepeats(chain)
  }

  lemma ChainNeighboursDiffer<V(0)>(chain: seq<Node<V>>, i: nat)
    requires NoRepeats(chain) && i + 2 < |chain|
    ensures forall j :: 0 <= j < |chain| ==> (j != i ==> chain[j] != chain[i]) && (j != i + 2 ==> chain[j] != chain[i + 2])
  {
  }

  lemma CutNoRepeats<V(0)>(chain: seq<Node<V>>, i: nat)
    requires NoRepeats(chain) && i < |chain|
    ensures NoRepeats(chain[..i] + chain[i + 1..]) && chain[i] !in chain[..i] + chain[i + 1..]
  {
  }

  lemma LinkedNeighbours<V(0)>(chain: seq<Node<V>>)
    requires Linked(chain)
    ensures forall i :: 0 <= i < |chain| - 1 ==> chain[i].next == chain[i + 1]
    ensures forall i :: 0 < i < |chain| ==> chain[i].prev == chain[i - 1]
    ensures NoRepeats(chain)
  {
  }

  /** A chain is linked again when the neighbours of one node point at each other. */
  lemma LinkedAgain<V(0)>(chain: seq<Node<V>>, i: nat)
    requires i + 2 < |chain| && NoRepeats(chain[..i + 1] + chain[i + 2..])
    requires forall j :: 0 <= j < |chain| - 1 && j != i && j != i + 1 ==> chain[j].next == chain[j + 1]
    requires forall j :: 0 < j < |chain| && j != i + 1 && j != i + 2 ==> chain[j].prev == chain[j - 1]
    requires chain[i].next == chain[i + 2] && chain[i + 2].prev == chain[i]
    ensures Linked(chain[..i + 1] + chain[i + 2..])
  {
    hide NoRepeats;
    var cut := chain[..i + 1] + chain[i + 2..];
    assert forall j :: 0 <= j < |cut| ==> cut[j] == chain[if j <= i then j else j + 1];
  }

  /** The map leads from each key to the one node that holds it. */
  ghost predicate Indexed<V(0)>(m: map<string, Node<V>>, nodes: seq<Node<V>>)
    reads nodes`key
  {
    && (forall i :: 0 <= i < |nodes| ==> nodes[i].key in m && m[nodes[i].key] == nodes[i])
    && (forall k :: k in m ==> m[k] in nodes && m[k].key == k)
  }

  ghost predicate NoRepeats<V(0)>(nodes: seq<Node<V>>) {
    forall i, j :: 0 <= i < j < |nodes| ==> nodes[i] != nodes[j]
  }

  lemma IndexedInsert<V(0)>(m: map<string, Node<V>>, node: Node<V>, nodes: seq<Node<V>>)
    requires Indexed(m, nodes) && node.key !in m
    ensures Indexed(m[node.key := node], [node] + nodes)
  {
  }

  lemma IndexedDrop<V(0)>(m: map<string, Node<V>>, nodes: seq<Node<V>>)
    requires Indexed(m, nodes) && NoRepeats(nodes) && nodes != []
    ensures Indexed(m - {nodes[|nodes| - 1].key}, nodes[..|nodes| - 1])
  {
    var n := |nodes| - 1;
    assert nodes == nodes[..n] + [nodes[n]];
    forall i | 0 <= i < n ensures nodes[i].key != nodes[n].key {
      assert m[nodes[i].key] == nodes[i];
    }
  }

  /** `s` with its element `i` in front. */
  ghost function ToFront<T>(s: seq<T>, i: nat): seq<T>
    requires i < |s|
  {
    [s[i]] + Cut(s, i)
  }

  lemma ToFrontAt<T>(s: seq<T>, i: nat, j: nat)
    requires i < |s| && j < |s|
    ensures |ToFront(s, i)| == |s| && ToFront(s, i)[j] == s[if j == 0 then i else if j <= i then j - 1 else j]
  {
  }

  lemma IndexedMoved<V(0)>(m: map<string, Node<V>>, nodes: seq<Node<V>>, i: nat)
    requires Indexed(m, nodes) && i < |nodes|
    ensures Indexed(m, ToFront(nodes, i))
  {
    assert nodes == nodes[..i] + [nodes[i]] + nodes[i + 1..];
  }

  /** The keys and values of a list of nodes. */
  ghost function Items<V(0)>(nodes: seq<Node<V>>): (items: List<string, V>)
    reads nodes`key, nodes`value
    ensures |items| == |nodes| && forall i :: 0 <= i < |nodes| ==> items[i] == Item(nodes[i].key, nodes[i].value)
  {
    if nodes == [] then [] else [Item(nodes[0].key, nodes[0].value)] + Items(nodes[1..])
  }

  lemma ItemsDistinct<V(0)>(m: map<string, Node<V>>, nodes: seq<Node<V>>)
    requires Indexed(m, nodes) && NoRepeats(nodes)
    ensures Distinct(Items(nodes)) && forall k :: k in m <==> Has(Items(nodes), k)
  {
    forall k | k in m ensures Has(Items(nodes), k) {
      var i :| 0 <= i < |nodes| && nodes[i] == m[k];
      assert Items(nodes)[i].key == k;
    }
    forall i, j | 0 <= i < j < |nodes| ensures nodes[i].key != nodes[j].key {
      assert m[nodes[i].key] == nodes[i];
    }
  }

  lemma ItemsMoved<V(0)>(nodes: seq<Node<V>>, i: nat)
    requires i < |nodes|
    ensures Items(ToFront(nodes, i)) == ToFront(Items(nodes), i)
  {
    hide Items, ToFront;
    var now, items := ToFront(nodes, i), Items(nodes);
    ToFrontAt(nodes, i, 0);
    ToFrontAt(items, i, 0);
    forall j | 0 <= j < |now| ensures Items(now)[j] == ToFront(items, i)[j] {
      ToFrontAt(nodes, i, j);
      ToFrontAt(items, i, j);
    }
  }

  lemma ItemsPrefix<V(0)>(nodes: seq<Node<V>>, n: nat)
    requires n <= |nodes|
    ensures Items(nodes[..n]) == Items(nodes)[..n]
  {
  }

  lemma TailOfCons<T>(x: T, s: seq<T>)
    ensures ([x] + s)[1..] == s
  {
  }

  lemma ItemsOfCons<V(0)>(node: Node<V>, nodes: seq<Node<V>>)
    ensures Items([node] + nodes) == [Item(node.key, node.value)] + Items(nodes)
  {
    assert ([node] + nodes)[1..] == nodes;
  }

  /** `node` has come to the front and the others keep their order. */
  ghost predicate Fronted<V(0)>(was: seq<Node<V>>, node: Node<V>, now: seq<Node<V>>) {
    exists i :: 0 <= i < |was| && was[i] == node && now == ToFront(was, i)
  }

  lemma FrontedAt<V(0)>(was: seq<Node<V>>, i: nat, now: seq<Node<V>>)
    requires i < |was| && now == ToFront(was, i)
    ensures Fronted(was, was[i], now)
  {
  }

  class Cache<V(0)> {
    var responseMap: map<string, Node<V>>
    var size: nat
    const capacity: nat
    const head: Node<V>
    const tail: Node<V>

    ghost var nodes: seq<Node<V>>
    ghost var Repr: set<Node<V>>

    ghost function Chain(): seq<Node<V>>
      reads this
    {
      [head] + nodes + [tail]
    }

    /** List, map and `size` agree. */
    ghost predicate Consistent()
      reads this, Repr
    {
      && head in Repr && tail in Repr && (forall i :: 0 <= i < |nodes| ==> nodes[i] in Repr)
      && Linked(Chain())
      && Indexed(responseMap, nodes)
      && size == |nodes|
    }

    ghost predicate Valid()
      reads this, Repr
    {
      Consistent() && size <= capacity
    }

    /** The list the cache stands for, most recently used first. */
    ghost function Contents(): List<string, V>
      reads this, Repr
      requires Consistent()
    {
      Items(nodes)
    }

    constructor (capacity: nat)
      ensures Valid() && fresh(Repr)
      ensures Contents() == [] && this.capacity == capacity
    {
      var h := new Node<V>.Sentinel();
      var t := new Node<V>.Sentinel();
      h.next := t;
      t.prev := h;
      this.capacity, size, responseMap := capacity, 0, map[];
      head, tail := h, t;
      nodes := [];
      new;
      Repr := {head, tail};
    }

    method AddToHead(node: Node<V>)
      requires Linked(Chain()) && node !in Chain() && head.next == Chain()[1]
      modifies this`nodes, node`prev, node`next, head`next, head.next`prev
      ensures nodes == [node] + old(nodes) && Linked(Chain())
    {
      ghost var chain := Chain();
      assert head == chain[0] && head.next == chain[1];
      node.next := head.next;
      head.next := node;
      node.prev := head;
      node.next.prev := node;
      nodes := [node] + nodes;
      assert Chain() == [head, node] + chain[1..];
      assert NoRepeats(Chain());
    }

    method RemoveNode(node: Node<V>, ghost i: nat)
      requires Linked(Chain()) && i < |nodes| && nodes[i] == node
      requires node.prev == Chain()[i] && node.next == Chain()[i + 2]
      modifies this`nodes, node.prev`next, node.next`prev
      ensures nodes == old(nodes[..i] + nodes[i + 1..]) && Linked(Chain()) && node !in Chain()
    {
      hide NoRepeats, Linked;
      ghost var chain := Chain();
      assert node == chain[i + 1] && node.prev == chain[i] && node.next == chain[i + 2];
      LinkedNeighbours(chain);
      ChainNeighboursDiffer(chain, i);
      CutNoRepeats(chain, i + 1);
      node.prev.next := node.next;
      node.next.prev := node.prev;
      LinkedAgain(chain, i);
      nodes := nodes[..i] + nodes[i + 1..];
      assert Chain() == chain[..i + 1] + chain[i + 2..];
    }

    /** What `Linked` says about one node. */
    lemma Neighbours(i: nat)
      requires Linked(Chain()) && i < |nodes|
      ensures nodes[i].prev == Chain()[i] == if i == 0 then head else nodes[i - 1]
      ensures nodes[i].next == Chain()[i + 2] == if i == |nodes| - 1 then tail else nodes[i + 1]
    {
      assert nodes[i] == Chain()[i + 1];
    }

    lemma SentinelNeighbours()
      requires Linked(Chain())
      ensures head.next == Chain()[1] == if nodes == [] then tail else nodes[0]
      ensures tail.prev == if nodes == [] then head else nodes[|nodes| - 1]
    {
      assert head == Chain()[0] && tail == Chain()[|nodes| + 1] && Chain()[|nodes|] == tail.prev;
    }

    lemma NodesDiffer()
      requires Linked(Chain())
      ensures NoRepeats(nodes)
    {
      assert forall i :: 0 <= i < |nodes| ==> nodes[i] == Chain()[i + 1];
    }

    method MoveToHead(node: Node<V>, ghost i: nat)
      requires Consistent() && i < |nodes| && nodes[i] == node
      modifies this`nodes, Repr`prev, Repr`next
      ensures Consistent() && nodes == old(ToFront(nodes, i)) && Contents() == old(ToFront(Contents(), i))
    {
      hide Linked, Indexed, Items, NoRepeats, Fronted;
      ghost var was := nodes;
      Neighbours(i);
      RemoveNode(node, i);
      SentinelNeighbours();
      AddToHead(node);
      assert nodes == ToFront(was, i);
      IndexedMoved(responseMap, was, i);
      ItemsMoved(was, i);
    }

    method RemoveTail() returns (removed: Node<V>)
      requires Consistent() && nodes != []
      modifies this`nodes, Repr`prev, Repr`next
      ensures removed == old(nodes[|nodes| - 1]) && nodes == old(nodes[..|nodes| - 1]) && Linked(Chain())
    {
      hide Linked, Indexed;
      ghost var i := |nodes| - 1;
      Neighbours(i);
      SentinelNeighbours();
      removed := tail.prev;
      RemoveNode(removed, i);
    }

    method InsertNew(uri: string, response: V)
      requires Consistent() && uri !in responseMap
      modifies this, Repr
      ensures nodes != [] && nodes == [nodes[0]] + old(nodes) && fresh(nodes[0]) && Repr == old(Repr) + {nodes[0]}
      ensures Consistent() && Contents() == [Item(uri, response)] + old(Contents())
    {
      hide Linked, Indexed, Items;
      SentinelNeighbours();
      var node := new Node<V>(uri, response);
      IndexedInsert(responseMap, node, nodes);
      ItemsOfCons(node, nodes);
      assert node !in Chain();
      responseMap := responseMap[uri := node];
      AddToHead(node);
      Repr := Repr + {node};
      size := size + 1;
    }

    method DropLast()
      requires Consistent() && nodes != []
      modifies this, Repr`prev, Repr`next
      ensures Consistent() && Repr == old(Repr) && nodes == old(nodes[..|nodes| - 1])
      ensures Contents() == old(Contents()[..|nodes| - 1])
    {
      hide Linked, Indexed, Items;
      NodesDiffer();
      IndexedDrop(responseMap, nodes);
      ItemsPrefix(nodes, |nodes| - 1);
      var removed := RemoveTail();
      responseMap := responseMap - {removed.key};
      size := size - 1;
    }

    lemma NodeIsOwned(node: Node<V>)
      requires Consistent() && node in nodes
      ensures node in Repr
    {
    }

    lemma NodeOf(uri: string) returns (i: nat)
      requires Consistent() && uri in responseMap
      ensures i < |nodes| && nodes[i] == responseMap[uri] && nodes[i].key == uri
    {
      i :| 0 <= i < |nodes| && nodes[i] == responseMap[uri];
    }

    /** Storing `v` in a node and moving it to the front. */
    lemma NodeToFront(i: nat, v: V)
      requires Consistent() && i < |nodes|
      ensures var l, x := Contents(), Item(nodes[i].key, v); ToFront(l[i := x], i) == [x] + Without(l, x.key)
    {
      var l, x := Contents(), Item(nodes[i].key, v);
      hide Items, Linked, Indexed, Without, Lookup, Distinct;
      NodesDiffer();
      ItemsDistinct(responseMap, nodes);
      WithoutAt(l, i);
      assert l[i := x][..i] == l[..i] && l[i := x][i + 1..] == l[i + 1..];
    }

    lemma NodeInContents(i: nat)
      requires Consistent() && i < |nodes|
      ensures var l := Contents();
              && Lookup(l, nodes[i].key) == Some(nodes[i].value)
              && [l[i]] + Without(l, nodes[i].key) == ToFront(l, i)
              && l[i] == Item(nodes[i].key, nodes[i].value)
    {
      NodesDiffer();
      ItemsDistinct(responseMap, nodes);
      WithoutAt(Contents(), i);
    }

    /** Storing into one node changes its item and no other. */
    method SetValue(node: Node<V>, value: V, ghost i: nat)
      requires Consistent() && i < |nodes| && nodes[i] == node
      modifies node`value
      ensures Consistent() && Contents() == old(Contents())[i := Item(node.key, value)]
    {
      hide Linked, Indexed;
      NodesDiffer();
      node.value := value;
    }

    /** `add_response`, under the lock. */
    method AddResponse(uri: string, response: V)
      requires Valid()
      modifies this, Repr
      ensures Valid() && fresh(Repr - old(Repr)) && old(Repr) <= Repr
      ensures Contents() == Add(old(Contents()), capacity, uri, response)
      ensures uri in old(responseMap) ==> Fronted(old(nodes), old(responseMap[uri]), nodes)
      ensures uri !in old(responseMap) && nodes != [] ==> fresh(nodes[0]) && nodes[1..] == old(nodes)[..|nodes| - 1]
    {
      hide Linked, Indexed, Items, Distinct, Without, Has, Fronted;
      ghost var was := nodes;
      NodesDiffer();
      ItemsDistinct(responseMap, nodes);
      if uri !in responseMap {
        WithoutAbsent(Contents(), uri);
        InsertNew(uri, response);
        TailOfCons(nodes[0], was);
        if size > capacity {
          DropLast();
        }
      } else {
        Refresh(uri, response);
      }
    }

    /** The key exists: new value, and most recently used. */
    method Refresh(uri: string, response: V)
      requires Valid() && uri in responseMap
      modifies this`nodes, Repr
      ensures Valid() && Contents() == [Item(uri, response)] + Without(old(Contents()), uri)
      ensures Repr == old(Repr) && Fronted(old(nodes), old(responseMap[uri]), nodes)
    {
      var node := responseMap[uri];
      ghost var was := nodes;
      hide Linked, Indexed, Items, Without, Fronted, ToFront;
      ghost var i := NodeOf(uri);
      NodeToFront(i, response);
      SetValue(node, response, i);
      MoveToHead(node, i);
      FrontedAt(was, i, nodes);
    }

    /** `get_response`, returning the node whose value the source hands out by address. */
    method GetResponse(uri: string) returns (found: Node?<V>)
      requires Valid()
      modifies this`nodes, Repr`prev, Repr`next
      ensures Valid() && Contents() == Touch(old(Contents()), uri)
      ensures found == null <==> !Has(old(Contents()), uri)
      ensures found != null ==> found in nodes && found.key == uri && Lookup(old(Contents()), uri) == Some(found.value)
    {
      hide Linked, Indexed, Items, Distinct, Without, Lookup, Has;
      NodesDiffer();
      ItemsDistinct(responseMap, nodes);
      if uri !in responseMap {
        return null;
      }
      found := responseMap[uri];
      ghost var i := NodeOf(uri);
      NodeInContents(i);
      MoveToHead(found, i);
    }

    /** A store into the response that `get_response` handed out. */
    method StoreThrough(node: Node<V>, value: V)
      requires Valid() && node in nodes
      modifies node`value
      ensures Valid() && Contents() == Overwrite(old(Contents()), node.key, value)
    {
      hide Linked, Indexed, Items, Distinct, Overwrite, NoRepeats, ToFront, Without, Lookup;
      ghost var i :| 0 <= i < |nodes| && nodes[i] == node;
      NodesDiffer();
      ItemsDistinct(responseMap, nodes);
      OverwriteAt(Contents(), i, value);
      NodeInContents(i);
      SetValue(node, value, i);
    }
  }
}
