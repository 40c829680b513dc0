/** The steps of `Threads` taken on the linked nodes of the cache object. A thread keeps the node its
    lookup found; the ghost `address` says which node stands behind each address of the model. */
module ThreadObject {
  import opened Options
  import opened Lru
  import opened CacheObject
  import Threads
  import LruRuns

  type Model<V> = Threads.Shared<string, V>
  type Cells<V> = seq<Threads.Cell<string, V>>

  /** Nodes under numbers: addresses, or threads. */
  type Nodes<V(0)> = map<nat, Node<V>>

  /** The cells of the model and the nodes of the cache stand in the same order. */
  ghost predicate Placed<V(0)>(address: Nodes<V>, cells: Cells<V>, nodes: seq<Node<V>>) {
    |cells| == |nodes| && forall i :: 0 <= i < |cells| ==> cells[i].id in address && address[cells[i].id] == nodes[i]
  }

  /** No two addresses lead to one node. */
  ghost predicate Apart<V(0)>(address: Nodes<V>) {
    forall a, b :: a in address && b in address && address[a] == address[b] ==> a == b
  }

  /** Addresses are older than the next one and lead to nodes of the cache. */
  ghost predicate Owned<V(0)>(address: Nodes<V>, nextId: nat, repr: set<Node<V>>) {
    forall id :: id in address ==> id < nextId && address[id] in repr
  }

  /** Every thread holds the node behind the address that the model holds for it. */
  ghost predicate Held<V(0)>(address: Nodes<V>, found: map<nat, Threads.Found<string>>, pending: Nodes<V>) {
    && found.Keys == pending.Keys
    && forall t :: t in pending ==> found[t].id in address && address[found[t].id] == pending[t]
  }

  lemma PlacedFronted<V(0)>(address: Nodes<V>, cells: Cells<V>, nodes: seq<Node<V>>, i: nat, v: V)
    requires Placed(address, cells, nodes) && i < |cells|
    ensures Placed(address, Threads.Fronted(cells, i, v), ToFront(nodes, i))
  {
  }

  lemma PlacedNew<V(0)>(address: Nodes<V>, cells: Cells<V>, nodes: seq<Node<V>>,
                        c: Threads.Cell<string, V>, now: seq<Node<V>>, capacity: nat)
    requires Placed(address, cells, nodes) && c.id !in address && now != [] && |now| == |Threads.DropOver([c] + cells, capacity)|
    requires now[1..] == nodes[..|now| - 1]
    ensures Placed(address[c.id := now[0]], Threads.DropOver([c] + cells, capacity), now)
  {
    assert forall i :: 0 < i < |now| ==> now[i] == now[1..][i - 1];
  }

  lemma HeldMore<V(0)>(address: Nodes<V>, found: map<nat, Threads.Found<string>>, pending: Nodes<V>, id: nat,
                       node: Node<V>)
    requires Held(address, found, pending) && id !in address
    ensures Held(address[id := node], found, pending)
  {
  }

  lemma HeldLess<V(0)>(address: Nodes<V>, found: map<nat, Threads.Found<string>>, pending: Nodes<V>, thread: nat)
    requires Held(address, found, pending)
    ensures Held(address, found - {thread}, pending - {thread})
  {
  }

  lemma OwnedStill<V(0)>(address: Nodes<V>, nextId: nat, repr: set<Node<V>>, nextId': nat, repr': set<Node<V>>)
    requires Owned(address, nextId, repr) && nextId <= nextId' && repr <= repr'
    ensures Owned(address, nextId', repr')
  {
  }

  lemma KnownPlaced<V(0)>(address: Nodes<V>, model: Model<V>, was: seq<Node<V>>, now: seq<Node<V>>, i: nat, uri: string,
                          value: V, capacity: nat)
    requires Threads.Inv(model) && Placed(address, model.cells, was) && NoRepeats(was)
    requires i < |was| == |model.cells| && Threads.CellOf(model.cells, uri) == Some(model.cells[i])
    requires Fronted(was, was[i], now)
    ensures var next := Threads.Next(model, capacity, Threads.LockedAdd(uri, value));
            Placed(address, next.cells, now) && next.nextId == model.nextId && next.pending == model.pending
  {
    hide Placed, Threads.CellOf, Threads.CutId, ToFront, Threads.Unique;
    Threads.InvUnique(model);
    Threads.CellAt(model.cells, i);
    var j :| 0 <= j < |was| && was[j] == was[i] && now == ToFront(was, j);
    assert j == i;
    PlacedFronted(address, model.cells, was, i, value);
  }

  lemma NewPlaced<V(0)>(address: Nodes<V>, model: Model<V>, was: seq<Node<V>>, now: seq<Node<V>>, repr: set<Node<V>>,
                        uri: string, value: V, capacity: nat)
    requires Placed(address, model.cells, was) && Owned(address, model.nextId, repr)
    requires Threads.CellOf(model.cells, uri).None?
    requires |now| == |Threads.Next(model, capacity, Threads.LockedAdd(uri, value)).cells|
    requires now != [] ==> now[1..] == was[..|now| - 1]
    ensures var next := Threads.Next(model, capacity, Threads.LockedAdd(uri, value));
            && Placed(if now == [] then address else address[model.nextId := now[0]], next.cells, now)
            && next.nextId == model.nextId + 1 && next.pending == model.pending
  {
    hide Placed, Threads.CellOf, Threads.DropOver;
    if now == [] {
      PlacedNone(address);
    } else {
      PlacedNew(address, model.cells, was, Threads.Cell(model.nextId, uri, value), now, capacity);
    }
  }

  lemma PlacedNone<V(0)>(address: Nodes<V>)
    ensures Placed(address, [], [])
  {
  }

  lemma NewOwned<V(0)>(address: Nodes<V>, model: Model<V>, pending: Nodes<V>, repr: set<Node<V>>, node: Node<V>,
                       repr': set<Node<V>>)
    requires Owned(address, model.nextId, repr) && Apart(address) && Held(address, model.pending, pending)
    requires node !in repr && node in repr' && repr <= repr'
    ensures var fuller := address[model.nextId := node];
            Owned(fuller, model.nextId + 1, repr') && Apart(fuller) && Held(fuller, model.pending, pending)
  {
    HeldMore(address, model.pending, pending, model.nextId, node);
  }

  /** What a safe interleaving says about its event `n`. */
  lemma {:induction false} SafeAt<V(0)>(capacity: nat, events: seq<Threads.Event<string, V>>, n: nat)
    requires Threads.Safe(capacity, events) && n < |events|
    ensures var s, e := Threads.After(capacity, events[..n]), events[n];
            e.LockedMove? ==> e.thread in s.pending && Threads.Resident(s.cells, s.pending[e.thread].id)
    decreases |events|
  {
    hide Threads.Next, Threads.Resident;
    var last := |events| - 1;
    if n < last {
      SafeAt(capacity, events[..last], n);
      assert events[..last][..n] == events[..n];
    }
  }

  class SharedCache<V(0)> {
    const cache: Cache<V>
    /** What each thread holds between its lookup and its lock. */
    var pending: Nodes<V>

    ghost var model: Model<V>
    ghost var address: Nodes<V>

    ghost predicate Valid()
      reads this, cache, cache.Repr
    {
      && cache.Valid() && cache.Contents() == Threads.Erased(model.cells)
      && Threads.Inv(model)
      && Placed(address, model.cells, cache.nodes) && Apart(address) && Held(address, model.pending, pending)
      && Owned(address, model.nextId, cache.Repr)
    }

    constructor (capacity: nat)
      ensures Valid() && fresh(cache) && fresh(cache.Repr) && cache.capacity == capacity && model == Threads.Start()
    {
      cache := new Cache<V>(capacity);
      pending := map[];
      model, address := Threads.Start(), map[];
    }

    /** The map leads to the node behind the cell of the model. */
    lemma FoundCell(uri: string) returns (i: nat)
      requires Valid()
      ensures uri in cache.responseMap <==> Threads.CellOf(model.cells, uri).Some?
      ensures uri in cache.responseMap ==>
                && i < |cache.nodes| == |model.cells| && cache.nodes[i] == cache.responseMap[uri]
                && Threads.CellOf(model.cells, uri) == Some(model.cells[i])
    {
      hide Linked, Threads.Erased, Items, Threads.CellOf, Lookup;
      cache.NodesDiffer();
      ItemsDistinct(cache.responseMap, cache.nodes);
      Threads.CellOfMeaning(model.cells, uri);
      i := 0;
      if uri in cache.responseMap {
        i := cache.NodeOf(uri);
        assert cache.Contents()[i].key == uri == model.cells[i].key;
        Threads.CellAt(model.cells, i);
      }
    }

    /** The unlocked half of `get_response`. */
    method LookUp(thread: nat, uri: string)
      requires Valid()
      modifies this
      ensures Valid() && model == Threads.Next(old(model), cache.capacity, Threads.LookUp(thread, uri))
    {
      hide Cache.Valid, Cache.Contents, Threads.Inv, Threads.Erased, Placed, Apart, Threads.CellOf;
      ghost var i := FoundCell(uri);
      Threads.NextKeeps(model, cache.capacity, Threads.LookUp(thread, uri));
      PlacedAt(i, uri);
      if uri in cache.responseMap {
        pending := pending[thread := cache.responseMap[uri]];
      } else {
        pending := pending - {thread};
      }
      model := Threads.Next(model, cache.capacity, Threads.LookUp(thread, uri));
    }

    lemma PlacedAt(i: nat, uri: string)
      requires Placed(address, model.cells, cache.nodes)
      ensures i < |cache.nodes| ==> i < |model.cells| && model.cells[i].id in address && address[model.cells[i].id] == cache.nodes[i]
    {
    }

    /** A held node is in the list when its address is in the model's. */
    lemma HeldIsResident(thread: nat) returns (i: nat)
      requires Valid() && thread in pending
      ensures pending[thread] in cache.nodes <==> Threads.Resident(model.cells, model.pending[thread].id)
      ensures pending[thread] in cache.nodes ==>
                && i < |cache.nodes| == |model.cells| && cache.nodes[i] == pending[thread]
                && model.cells[i].id == model.pending[thread].id && model.cells[i].key == model.pending[thread].key
    {
      hide Cache.Valid, Cache.Contents, Threads.Erased;
      i := 0;
      if pending[thread] in cache.nodes {
        i :| 0 <= i < |cache.nodes| && cache.nodes[i] == pending[thread];
        assert model.cells[i].id == model.pending[thread].id;
      }
    }

    /** The locked half of `get_response`, on a node that has not been evicted. */
    method LockedMove(thread: nat)
      requires Valid() && thread in pending && pending[thread] in cache.nodes
      modifies this, cache, cache.Repr
      ensures Valid() && cache.Repr == old(cache.Repr)
      ensures model == Threads.Next(old(model), cache.capacity, Threads.LockedMove(thread))
    {
      hide Cache.Consistent, Cache.Contents, Threads.Inv, Threads.Erased, Threads.Next, Threads.Resident, Placed, Held, Apart,
        Owned, ToFront;
      ghost var next := Threads.Next(model, cache.capacity, Threads.LockedMove(thread));
      ghost var i := HeldIsResident(thread);
      MovedContents(thread, i);
      HeldLess(address, model.pending, pending, thread);
      var node := pending[thread];
      cache.MoveToHead(node, i);
      pending := pending - {thread};
      model := next;
    }

    lemma MovedContents(thread: nat, i: nat)
      requires Valid() && thread in pending && i < |cache.nodes| == |model.cells| && cache.nodes[i] == pending[thread]
      requires model.cells[i].id == model.pending[thread].id && model.cells[i].key == model.pending[thread].key
      ensures var next, l, nodes := Threads.Next(model, cache.capacity, Threads.LockedMove(thread)), cache.Contents(), cache.nodes;
              && Threads.Inv(next) && next.nextId == model.nextId && next.pending == model.pending - {thread}
              && Threads.Erased(next.cells) == ToFront(l, i)
              && Placed(address, next.cells, ToFront(nodes, i))
    {
      hide Threads.Inv, Threads.Erased, Placed, Linked, Indexed, ToFront, Items, Lookup, Without, Threads.CutId, Threads.CellOf,
        Apart, Owned;
      assert Threads.Resident(model.cells, model.pending[thread].id);
      Threads.NextKeeps(model, cache.capacity, Threads.LockedMove(thread));
      cache.NodeInContents(i);
      assert cache.nodes[i].key == model.cells[i].key;
      var j := Threads.CellWithIdAt(model.cells, model.cells[i].id);
      Threads.InvUnique(model);
      assert i == j;
      Threads.CellAt(model.cells, i);
      PlacedFronted(address, model.cells, cache.nodes, i, model.cells[i].value);
    }

    lemma SameLength(cells: Cells<V>)
      requires cache.Valid() && cache.Contents() == Threads.Erased(cells)
      ensures |cache.nodes| == |cells| && NoRepeats(cache.nodes) && forall n :: n in cache.nodes ==> n in cache.Repr
    {
      cache.NodesDiffer();
    }

    /** `add_response`, one locked step. A new node gets the next address. */
    method LockedAdd(uri: string, value: V)
      requires Valid()
      modifies this, cache, cache.Repr
      ensures Valid() && fresh(cache.Repr - old(cache.Repr))
      ensures model == Threads.Next(old(model), cache.capacity, Threads.LockedAdd(uri, value))
    {
      hide Cache.Valid, Cache.Contents, Threads.Inv, Threads.Erased, Threads.Next, Placed, Held, Apart, Owned, Fronted, Add,
        NoRepeats;
      ghost var next := Threads.Next(model, cache.capacity, Threads.LockedAdd(uri, value));
      ghost var was, repr, known := cache.nodes, cache.Repr, uri in cache.responseMap;
      ghost var i := FoundCell(uri);
      SameLength(model.cells);
      Threads.NextKeeps(model, cache.capacity, Threads.LockedAdd(uri, value));
      cache.AddResponse(uri, value);
      SameLength(next.cells);
      ghost var fuller := if known || cache.nodes == [] then address else address[model.nextId := cache.nodes[0]];
      if known {
        KnownPlaced(address, model, was, cache.nodes, i, uri, value, cache.capacity);
        OwnedStill(address, model.nextId, repr, model.nextId, cache.Repr);
      } else {
        NewPlaced(address, model, was, cache.nodes, repr, uri, value, cache.capacity);
        OwnedStill(address, model.nextId, repr, model.nextId + 1, cache.Repr);
        if cache.nodes != [] {
          NewOwned(address, model, pending, repr, cache.nodes[0], cache.Repr);
        }
      }
      address := fuller;
      model := next;
    }

    /** Any safe interleaving of any number of threads, taken on the linked nodes, never moves a node
        that has been evicted, and leaves the list of the locked steps run as whole operations in
        lock order. */
    method RunAll(events: seq<Threads.Event<string, V>>)
      requires Valid() && model == Threads.Start() && Threads.Safe(cache.capacity, events)
      modifies this, cache, cache.Repr
      ensures Valid() && fresh(cache.Repr - old(cache.Repr))
      ensures cache.Contents() == LruRuns.Run(cache.capacity, Threads.Locked(cache.capacity, events))
    {
      hide Cache.Valid, Cache.Contents, Threads.Inv, Threads.Next, Placed, Held, Apart, Owned, Threads.Safe, Threads.Resident;
      assert events[..0] == [];
      for n := 0 to |events|
        invariant Valid() && fresh(cache.Repr - old(cache.Repr))
        invariant model == Threads.After(cache.capacity, events[..n])
      {
        SafeAt(cache.capacity, events, n);
        assert events[..n + 1][..n] == events[..n];
        match events[n] {
          case LockedAdd(uri, value) => LockedAdd(uri, value);
          case LookUp(thread, uri) => LookUp(thread, uri);
          case LockedMove(thread) =>
            HoldsIff(thread);
            ghost var _ := HeldIsResident(thread);
            LockedMove(thread);
        }
      }
      assert events[..|events|] == events;
      Threads.InterleavingIsSerial(cache.capacity, events);
    }

    lemma HoldsIff(thread: nat)
      requires Valid()
      ensures thread in pending <==> thread in model.pending
    {
    }
  }
}
