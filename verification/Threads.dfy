/** Threads sharing the cache. `add_response` is one locked step. `get_response` looks its key up
    before it takes the lock, keeps the node it found, and moves that node to the front under the
    lock. A node is identified by its address, `id`; overwriting a value keeps the node. */
module Threads {
  import opened Options
  import opened Lru
  import opened LruRuns

  datatype Cell<K, V> = Cell(id: nat, key: K, value: V)

  /** What an unlocked lookup leaves with its thread. */
  datatype Found<K> = Found(id: nat, key: K)

  datatype Shared<K, V> = Shared(cells: seq<Cell<K, V>>, nextId: nat, pending: map<nat, Found<K>>)

  datatype Event<K, V> =
    | LockedAdd(key: K, value: V)
    | LookUp(thread: nat, key: K)
    | LockedMove(thread: nat)

  function CellOf<K(==), V>(cells: seq<Cell<K, V>>, k: K): Option<Cell<K, V>> {
    if cells == [] then None else if cells[0].key == k then Some(cells[0]) else CellOf(cells[1..], k)
  }

  predicate Resident<K, V>(cells: seq<Cell<K, V>>, id: nat) {
    exists i :: 0 <= i < |cells| && cells[i].id == id
  }

  function CutId<K, V>(cells: seq<Cell<K, V>>, id: nat): seq<Cell<K, V>> {
    if cells == [] then [] else if cells[0].id == id then CutId(cells[1..], id) else [cells[0]] + CutId(cells[1..], id)
  }

  function CellWithId<K, V>(cells: seq<Cell<K, V>>, id: nat): (c: Cell<K, V>)
    requires Resident(cells, id)
    ensures c in cells && c.id == id
  {
    if cells[0].id == id then cells[0]
    else
      assert forall i :: 1 <= i < |cells| ==> cells[i] == cells[1..][i - 1];
      CellWithId(cells[1..], id)
  }

  function DropOver<T>(s: seq<T>, capacity: nat): seq<T> {
    if |s| > capacity then s[..|s| - 1] else s
  }

  /** One event. A move of a node that has been evicted meanwhile has no defined effect; it is
      never taken in the runs below. */
  function Next<K(==), V>(s: Shared<K, V>, capacity: nat, e: Event<K, V>): Shared<K, V> {
    match e
    case LockedAdd(k, v) =>
      (match CellOf(s.cells, k)
       case Some(c) => s.(cells := [c.(value := v)] + CutId(s.cells, c.id))
       case None => s.(cells := DropOver([Cell(s.nextId, k, v)] + s.cells, capacity), nextId := s.nextId + 1))
    case LookUp(t, k) =>
      (match CellOf(s.cells, k)
       case Some(c) => s.(pending := s.pending[t := Found(c.id, k)])
       case None => s.(pending := s.pending - {t}))
    case LockedMove(t) =>
      if t in s.pending && Resident(s.cells, s.pending[t].id) then
        var id := s.pending[t].id;
        s.(cells := [CellWithId(s.cells, id)] + CutId(s.cells, id), pending := s.pending - {t})
      else s
  }

  function Start<K, V>(): Shared<K, V> {
    Shared([], 0, map[])
  }

  function After<K(==), V>(capacity: nat, events: seq<Event<K, V>>): Shared<K, V> {
    if events == [] then Start()
    else Next(After(capacity, events[..|events| - 1]), capacity, events[|events| - 1])
  }

  /** No node is evicted between a get's lookup and its lock, and a thread moves only after a
      successful lookup. */
  predicate Safe<K(==), V>(capacity: nat, events: seq<Event<K, V>>) {
    if events == [] then true
    else
      var init, e := events[..|events| - 1], events[|events| - 1];
      var s := After(capacity, init);
      && Safe(capacity, init)
      && (e.LockedMove? ==> e.thread in s.pending && Resident(s.cells, s.pending[e.thread].id))
  }

  /** The locked steps alone, in lock order, as atomic cache operations. */
  function Locked<K(==), V>(capacity: nat, events: seq<Event<K, V>>): seq<Op<K, V>> {
    if events == [] then []
    else
      var init, e := events[..|events| - 1], events[|events| - 1];
      Locked(capacity, init) +
      match e
      case LockedAdd(k, v) => [AddOp(k, v)]
      case LookUp(_, _) => []
      case LockedMove(t) =>
        var s := After(capacity, init);
        if t in s.pending then [GetOp(s.pending[t].key)] else []
  }

  function Erased<K, V>(cells: seq<Cell<K, V>>): (l: List<K, V>)
    ensures |l| == |cells| && forall i :: 0 <= i < |cells| ==> l[i] == Item(cells[i].key, cells[i].value)
  {
    if cells == [] then [] else [Item(cells[0].key, cells[0].value)] + Erased(cells[1..])
  }

  ghost predicate Unique<K, V>(cells: seq<Cell<K, V>>) {
    forall i, j :: 0 <= i < j < |cells| ==> cells[i].id != cells[j].id && cells[i].key != cells[j].key
  }

  /** Addresses and keys are unique, addresses are older than the next one, and a pending address
      that is still in the list still holds the key it was found under. */
  ghost predicate Inv<K, V>(s: Shared<K, V>) {
    && Unique(s.cells)
    && (forall i :: 0 <= i < |s.cells| ==> s.cells[i].id < s.nextId)
    && (forall t :: t in s.pending ==> s.pending[t].id < s.nextId)
    && (forall t, i :: t in s.pending && 0 <= i < |s.cells| && s.cells[i].id == s.pending[t].id
                       ==> s.cells[i].key == s.pending[t].key)
  }

  lemma UniqueTail<K, V>(cells: seq<Cell<K, V>>)
    requires Unique(cells) && cells != []
    ensures Unique(cells[1..])
    ensures forall i :: 1 <= i < |cells| ==> cells[i].id != cells[0].id && cells[i].key != cells[0].key
  {
    assert forall i :: 0 <= i < |cells[1..]| ==> cells[1..][i] == cells[i + 1];
  }

  lemma {:induction false} CutAbsent<K, V>(cells: seq<Cell<K, V>>, id: nat)
    requires forall i :: 0 <= i < |cells| ==> cells[i].id != id
    ensures CutId(cells, id) == cells
  {
    if cells != [] {
      CutAbsent(cells[1..], id);
    }
  }

  /** In a unique list, a cell is found by its key and cut by its address at its one place. */
  lemma {:induction false} CellAt<K, V>(cells: seq<Cell<K, V>>, i: nat)
    requires Unique(cells) && i < |cells|
    ensures CellOf(cells, cells[i].key) == Some(cells[i])
    ensures CutId(cells, cells[i].id) == Cut(cells, i)
  {
    UniqueTail(cells);
    hide Unique, Cut;
    var t := cells[1..];
    if i == 0 {
      CutAbsent(t, cells[0].id);
      CutFirst(cells);
    } else {
      CellAt(t, i - 1);
      assert t[i - 1] == cells[i];
      CutLater(cells, i);
    }
  }

  lemma {:induction false} CellOfMeaning<K, V>(cells: seq<Cell<K, V>>, k: K)
    ensures CellOf(cells, k).Some? <==> Has(Erased(cells), k)
    ensures CellOf(cells, k).Some? ==> CellOf(cells, k).value in cells && CellOf(cells, k).value.key == k
  {
    if cells != [] {
      CellOfMeaning(cells[1..], k);
      var l := Erased(cells);
      assert l[1..] == Erased(cells[1..]);
      assert forall i :: 1 <= i < |l| ==> l[i] == l[1..][i - 1];
    }
  }

  /** The cell at `i` brought to the front with value `v`. */
  function Fronted<K, V>(cells: seq<Cell<K, V>>, i: nat, v: V): seq<Cell<K, V>>
    requires i < |cells|
  {
    [cells[i].(value := v)] + Cut(cells, i)
  }

  lemma FrontedInv<K, V>(s: Shared<K, V>, i: nat, v: V)
    requires Inv(s) && i < |s.cells|
    ensures Inv(s.(cells := Fronted(s.cells, i, v)))
  {
    var f := Fronted(s.cells, i, v);
    FrontedCells(s.cells, i, v);
    hide Fronted;
    assert Unique(f);
  }

  /** Every cell keeps its address and key. */
  lemma FrontedCells<K, V>(cells: seq<Cell<K, V>>, i: nat, v: V)
    requires i < |cells|
    ensures var f := Fronted(cells, i, v);
            |f| == |cells| && forall j :: 0 <= j < |f| ==>
              var c := cells[if j == 0 then i else if j <= i then j - 1 else j];
              f[j].id == c.id && f[j].key == c.key
  {
  }

  /** To the erased list this is a use of the cell's key. */
  lemma FrontedErased<K, V>(s: Shared<K, V>, i: nat, v: V)
    requires Inv(s) && i < |s.cells|
    ensures var c, l := s.cells[i], Erased(s.cells);
            && Erased(Fronted(s.cells, i, v)) == [Item(c.key, v)] + Without(l, c.key)
            && Has(l, c.key) && Lookup(l, c.key) == Some(c.value)
  {
    hide Without, Lookup, Erased;
    var l := Erased(s.cells);
    assert Distinct(l);
    WithoutAt(l, i);
    assert l[i].key == s.cells[i].key;
    assert Erased(Fronted(s.cells, i, v)) == [Item(l[i].key, v)] + Cut(l, i);
  }

  lemma AddNewInv<K, V>(s: Shared<K, V>, capacity: nat, k: K, v: V)
    requires Inv(s) && forall i :: 0 <= i < |s.cells| ==> s.cells[i].key != k
    ensures Inv(s.(cells := DropOver([Cell(s.nextId, k, v)] + s.cells, capacity), nextId := s.nextId + 1))
  {
    var cells := [Cell(s.nextId, k, v)] + s.cells;
    assert forall i :: 1 <= i < |cells| ==> cells[i] == s.cells[i - 1];
    assert Inv(s.(cells := cells, nextId := s.nextId + 1));
  }

  lemma AddNewErased<K, V>(s: Shared<K, V>, capacity: nat, k: K, v: V)
    requires !Has(Erased(s.cells), k)
    ensures Erased(DropOver([Cell(s.nextId, k, v)] + s.cells, capacity)) == Add(Erased(s.cells), capacity, k, v)
    ensures forall i :: 0 <= i < |s.cells| ==> s.cells[i].key != k
  {
    hide Without, Erased;
    var l := Erased(s.cells);
    WithoutAbsent(l, k);
    assert forall i :: 0 <= i < |s.cells| ==> l[i].key == s.cells[i].key;
    assert Erased([Cell(s.nextId, k, v)] + s.cells) == [Item(k, v)] + l;
  }

  lemma CellWithIdAt<K, V>(cells: seq<Cell<K, V>>, id: nat) returns (i: nat)
    requires Resident(cells, id)
    ensures i < |cells| && cells[i] == CellWithId(cells, id) && cells[i].id == id
  {
    i :| 0 <= i < |cells| && cells[i] == CellWithId(cells, id);
  }

  lemma LookUpInv<K, V>(s: Shared<K, V>, capacity: nat, t: nat, k: K)
    requires Inv(s)
    ensures Inv(Next(s, capacity, LookUp(t, k)))
  {
    hide Erased, CellOf, Has;
    CellOfMeaning(s.cells, k);
  }

  lemma NextKeeps<K, V>(s: Shared<K, V>, capacity: nat, e: Event<K, V>)
    requires Inv(s)
    requires e.LockedMove? ==> e.thread in s.pending && Resident(s.cells, s.pending[e.thread].id)
    ensures var s' := Next(s, capacity, e);
            && Inv(s')
            && Erased(s'.cells) == match e
                                   case LockedAdd(k, v) => Add(Erased(s.cells), capacity, k, v)
                                   case LookUp(_, _) => Erased(s.cells)
                                   case LockedMove(t) => Touch(Erased(s.cells), s.pending[t].key)
  {
    hide Erased, CutId, CellOf, DropOver, Without, Lookup, Unique;
    match e
    case LockedAdd(k, v) =>
      CellOfMeaning(s.cells, k);
      if CellOf(s.cells, k).Some? {
        var i :| 0 <= i < |s.cells| && s.cells[i] == CellOf(s.cells, k).value;
        CellAt(s.cells, i);
        FrontedInv(s, i, v);
        FrontedErased(s, i, v);
      } else {
        AddNewErased(s, capacity, k, v);
        AddNewInv(s, capacity, k, v);
      }
    case LookUp(t, k) =>
      LookUpInv(s, capacity, t, k);
    case LockedMove(t) =>
      var i := CellWithIdAt(s.cells, s.pending[t].id);
      CellAt(s.cells, i);
      FrontedInv(s, i, s.cells[i].value);
      FrontedErased(s, i, s.cells[i].value);
  }

  lemma {:induction false} AfterIsLocked<K, V>(capacity: nat, events: seq<Event<K, V>>)
    requires Safe(capacity, events)
    ensures var s := After(capacity, events);
            Inv(s) && Erased(s.cells) == Run(capacity, Locked(capacity, events))
  {
    if events != [] {
      var init, e := events[..|events| - 1], events[|events| - 1];
      var s, ops := After(capacity, init), Locked(capacity, init);
      AfterIsLocked(capacity, init);
      NextKeeps(s, capacity, e);
      match e
      case LockedAdd(k, v) => assert (ops + [AddOp(k, v)])[..|ops|] == ops;
      case LookUp(_, _) => assert ops + [] == ops;
      case LockedMove(t) => assert (ops + [GetOp(s.pending[t].key)])[..|ops|] == ops;
    }
  }

  /** Every safe interleaving of any number of threads leaves the list that running the locked
      steps one after another, as whole operations in lock order, leaves. */
  lemma InterleavingIsSerial<K, V>(capacity: nat, events: seq<Event<K, V>>)
    requires Safe(capacity, events)
    ensures Erased(After(capacity, events).cells) == Run(capacity, Locked(capacity, events))
  {
    AfterIsLocked(capacity, events);
  }

  /** Exactly which event strands a thread that has looked up but not yet locked: an add of a new key
      to a full list whose last node is the one the thread found. No lookup and no move of another
      thread does. */
  lemma StrandedIff<K, V>(s: Shared<K, V>, capacity: nat, e: Event<K, V>, thread: nat)
    requires Inv(s) && |s.cells| <= capacity
    requires thread in s.pending && Resident(s.cells, s.pending[thread].id)
    ensures var id, n := s.pending[thread].id, |s.cells|;
            n > 0 &&
            (!Resident(Next(s, capacity, e).cells, id) <==>
            e.LockedAdd? && CellOf(s.cells, e.key).None? && n == capacity && s.cells[n - 1].id == id)
  {
    hide Resident, Inv, Erased, Has, CutId, CellOf, CellWithId;
    var id := s.pending[thread].id;
    assert s.cells != [] by { var _ := CellWithIdAt(s.cells, id); }
    match e
    case LookUp(_, _) =>
    case LockedMove(t) =>
      if t in s.pending && Resident(s.cells, s.pending[t].id) {
        MoveKeepsResident(s, s.pending[t].id, id);
      }
    case LockedAdd(k, v) =>
      CellOfMeaning(s.cells, k);
      if CellOf(s.cells, k).Some? {
        PresentKeepsResident(s, k, v, id);
      } else {
        NewPushesLast(s, capacity, k, v, id);
      }
  }

  lemma MoveKeepsResident<K, V>(s: Shared<K, V>, moved: nat, id: nat)
    requires Inv(s) && Resident(s.cells, moved) && Resident(s.cells, id)
    ensures Resident([CellWithId(s.cells, moved)] + CutId(s.cells, moved), id)
  {
    hide Inv, Unique, CutId, Resident, CellWithId;
    assert Unique(s.cells) by { InvUnique(s); }
    var i := CellWithIdAt(s.cells, id);
    var j := CellWithIdAt(s.cells, moved);
    CellAt(s.cells, j);
    FrontedResident(s.cells, i, j, s.cells[j].value);
  }

  lemma PresentKeepsResident<K, V>(s: Shared<K, V>, k: K, v: V, id: nat)
    requires Inv(s) && Resident(s.cells, id) && CellOf(s.cells, k).Some?
    ensures var c := CellOf(s.cells, k).value; Resident([c.(value := v)] + CutId(s.cells, c.id), id)
  {
    hide Inv, Unique, CellOf, CutId, Has, Erased, Resident, Fronted;
    CellOfMeaning(s.cells, k);
    var j :| 0 <= j < |s.cells| && s.cells[j] == CellOf(s.cells, k).value;
    assert Unique(s.cells) by { InvUnique(s); }
    CellAt(s.cells, j);
    var i := CellWithIdAt(s.cells, id);
    FrontedResident(s.cells, i, j, v);
  }

  lemma InvUnique<K, V>(s: Shared<K, V>)
    requires Inv(s)
    ensures Unique(s.cells)
  {
    hide Unique;
  }

  lemma FrontedResident<K, V>(cells: seq<Cell<K, V>>, i: nat, j: nat, v: V)
    requires i < |cells| && j < |cells|
    ensures Resident([cells[j].(value := v)] + Cut(cells, j), cells[i].id)
  {
    var next := [cells[j].(value := v)] + Cut(cells, j);
    assert next[if i == j then 0 else if i < j then i + 1 else i].id == cells[i].id;
  }

  lemma NewPushesLast<K, V>(s: Shared<K, V>, capacity: nat, k: K, v: V, id: nat)
    requires Inv(s) && |s.cells| <= capacity && Resident(s.cells, id)
    ensures s.cells != []
    ensures !Resident(DropOver([Cell(s.nextId, k, v)] + s.cells, capacity), id)
       <==> |s.cells| == capacity && s.cells[|s.cells| - 1].id == id
  {
    var next := DropOver([Cell(s.nextId, k, v)] + s.cells, capacity);
    var i :| 0 <= i < |s.cells| && s.cells[i].id == id;
    assert id < s.nextId;
    assert forall j :: 0 < j < |next| ==> next[j] == s.cells[j - 1];
    if i + 1 < |next| {
      assert next[i + 1].id == id;
    }
  }

  // ---- safety by keys alone -----------------------------------------------------------------------------

  /** The atomic cache and, for each thread whose found node is still in it, the key of that node. */
  datatype Keyed<K, V> = Keyed(list: List<K, V>, held: map<nat, K>)

  /** A thread loses its node when a locked add leaves its key out, and gets nothing back when the key
      returns. */
  function KeyedNext<K(==), V>(s: Keyed<K, V>, capacity: nat, e: Event<K, V>): Keyed<K, V> {
    match e
    case LockedAdd(k, v) =>
      var l := Add(s.list, capacity, k, v);
      Keyed(l, map t | t in s.held && Has(l, s.held[t]) :: s.held[t])
    case LookUp(t, k) => s.(held := if Has(s.list, k) then s.held[t := k] else s.held - {t})
    case LockedMove(t) => if t in s.held then Keyed(Touch(s.list, s.held[t]), s.held - {t}) else s
  }

  function KeyedAfter<K(==), V>(capacity: nat, events: seq<Event<K, V>>): Keyed<K, V> {
    if events == [] then Keyed([], map[])
    else KeyedNext(KeyedAfter(capacity, events[..|events| - 1]), capacity, events[|events| - 1])
  }

  /** Every locked move finds its key in the cache, where it has been ever since its lookup. */
  predicate KeyedSafe<K(==), V>(capacity: nat, events: seq<Event<K, V>>) {
    if events == [] then true
    else
      var init, e := events[..|events| - 1], events[|events| - 1];
      KeyedSafe(capacity, init) && (e.LockedMove? ==> e.thread in KeyedAfter(capacity, init).held)
  }

  /** The thread holds a node that is in the list. */
  predicate Holds<K, V>(s: Shared<K, V>, t: nat) {
    t in s.pending && Resident(s.cells, s.pending[t].id)
  }

  ghost predicate Follows<K, V>(s: Shared<K, V>, ks: Keyed<K, V>) {
    && ks.list == Erased(s.cells)
    && forall t :: (t in ks.held <==> Holds(s, t)) && (t in ks.held ==> ks.held[t] == s.pending[t].key)
  }

  lemma {:induction false} CutIdKeeps<K, V>(cells: seq<Cell<K, V>>, id: nat)
    ensures forall c :: c in CutId(cells, id) ==> c in cells
  {
    if cells != [] {
      CutIdKeeps(cells[1..], id);
    }
  }

  lemma ResidentIn<K, V>(cells: seq<Cell<K, V>>, id: nat)
    ensures Resident(cells, id) <==> exists c :: c in cells && c.id == id
  {
  }

  lemma AddBringsOnlyNew<K, V>(s: Shared<K, V>, capacity: nat, k: K, v: V, id: nat)
    requires Inv(s) && id < s.nextId && Resident(Next(s, capacity, LockedAdd(k, v)).cells, id)
    ensures Resident(s.cells, id)
  {
    hide Resident, Inv, CellOf, CutId;
    var next := Next(s, capacity, LockedAdd(k, v)).cells;
    ResidentIn(next, id);
    ResidentIn(s.cells, id);
    CellOfMeaning(s.cells, k);
    if CellOf(s.cells, k).Some? {
      CutIdKeeps(s.cells, CellOf(s.cells, k).value.id);
    }
  }

  lemma HasIsCell<K, V>(cells: seq<Cell<K, V>>, k: K)
    ensures Has(Erased(cells), k) <==> exists c :: c in cells && c.key == k
  {
    CellOfMeaning(cells, k);
    var l := Erased(cells);
    forall c | c in cells && c.key == k ensures Has(l, k) {
      var i :| 0 <= i < |cells| && cells[i] == c;
      assert l[i].key == k;
    }
  }

  lemma ResidentHasKey<K, V>(s: Shared<K, V>, t: nat)
    requires Inv(s) && Holds(s, t)
    ensures Has(Erased(s.cells), s.pending[t].key)
  {
    HasIsCell(s.cells, s.pending[t].key);
    var i := CellWithIdAt(s.cells, s.pending[t].id);
  }

  /** After an add a thread still holds its node exactly when it did and the key is still there. */
  lemma AddHolds<K, V>(s: Shared<K, V>, capacity: nat, k: K, v: V, t: nat)
    requires Inv(s) && |s.cells| <= capacity && t in s.pending
    ensures var next := Next(s, capacity, LockedAdd(k, v));
            Holds(next, t) <==> Holds(s, t) && Has(Erased(next.cells), s.pending[t].key)
  {
    hide Erased, CellOf, CutId, Has;
    var e, id := LockedAdd(k, v), s.pending[t].id;
    var next := Next(s, capacity, e);
    NextKeeps(s, capacity, e);
    if Holds(next, t) {
      AddBringsOnlyNew(s, capacity, k, v, id);
      ResidentHasKey(next, t);
    } else if Holds(s, t) {
      StrandedIff(s, capacity, e, t);
      StrandedKeyIsGone(s, capacity, k, v, id);
    }
  }

  lemma StrandedKeyIsGone<K, V>(s: Shared<K, V>, capacity: nat, k: K, v: V, id: nat)
    requires Inv(s) && s.cells != [] && |s.cells| == capacity && CellOf(s.cells, k).None?
    ensures var last := s.cells[|s.cells| - 1];
            !Has(Erased(Next(s, capacity, LockedAdd(k, v)).cells), last.key)
  {
    hide Erased, CellOf, Has;
    var next, n := Next(s, capacity, LockedAdd(k, v)).cells, |s.cells| - 1;
    CellOfMeaning(s.cells, k);
    HasIsCell(s.cells, k);
    HasIsCell(next, s.cells[n].key);
    assert next == [Cell(s.nextId, k, v)] + s.cells[..n];
  }

  lemma StepFollows<K, V>(s: Shared<K, V>, ks: Keyed<K, V>, capacity: nat, e: Event<K, V>)
    requires Inv(s) && |s.cells| <= capacity && Follows(s, ks)
    requires e.LockedMove? ==> Holds(s, e.thread)
    ensures Follows(Next(s, capacity, e), KeyedNext(ks, capacity, e))
  {
    hide Inv, Erased, Has, CutId, CellOf, CellWithId, Resident, Add, Touch, DropOver;
    NextKeeps(s, capacity, e);
    match e
    case LockedAdd(k, v) =>
      forall t | t in s.pending ensures Holds(Next(s, capacity, e), t) <==>
                                        Holds(s, t) && Has(Erased(Next(s, capacity, e).cells), s.pending[t].key) {
        AddHolds(s, capacity, k, v, t);
      }
    case LookUp(t, k) =>
      CellOfMeaning(s.cells, k);
      FoundIsResident(s.cells, k);
    case LockedMove(t) =>
      forall u | u in s.pending
        ensures Resident(Next(s, capacity, e).cells, s.pending[u].id) <==> Resident(s.cells, s.pending[u].id)
      {
        MoveHolds(s, s.pending[t].id, s.pending[u].id);
      }
  }

  lemma FoundIsResident<K, V>(cells: seq<Cell<K, V>>, k: K)
    ensures CellOf(cells, k).Some? ==> Resident(cells, CellOf(cells, k).value.id)
  {
    CellOfMeaning(cells, k);
  }

  lemma MoveHolds<K, V>(s: Shared<K, V>, moved: nat, id: nat)
    requires Inv(s) && Resident(s.cells, moved)
    ensures Resident([CellWithId(s.cells, moved)] + CutId(s.cells, moved), id) <==> Resident(s.cells, id)
  {
    hide Inv, CutId, Resident;
    if Resident(s.cells, id) {
      MoveKeepsResident(s, moved, id);
    }
    ResidentIn(s.cells, id);
    ResidentIn([CellWithId(s.cells, moved)] + CutId(s.cells, moved), id);
    CutIdKeeps(s.cells, moved);
  }

  lemma {:induction false} SafeFollows<K, V>(capacity: nat, events: seq<Event<K, V>>)
    ensures Safe(capacity, events) <==> KeyedSafe(capacity, events)
    ensures Safe(capacity, events) ==> Follows(After(capacity, events), KeyedAfter(capacity, events))
  {
    hide Next, KeyedNext, Inv;
    if events == [] {
      NothingFollows<K, V>();
    } else {
      var init, e := events[..|events| - 1], events[|events| - 1];
      SafeFollows(capacity, init);
      if Safe(capacity, init) {
        AfterIsLocked(capacity, init);
        RunDistinct(capacity, Locked(capacity, init));
        if e.LockedMove? ==> Holds(After(capacity, init), e.thread) {
          StepFollows(After(capacity, init), KeyedAfter(capacity, init), capacity, e);
        }
      }
    }
  }

  lemma NothingFollows<K, V>()
    ensures Follows(Start<K, V>(), KeyedAfter(0, []))
  {
  }

  /** Whether a run is safe is decided by the keys and the locked steps alone: it is if and only if
      every move comes while its key has been in the atomic cache after every locked step since its
      lookup. The cache it is about is the run of the locked steps, so `ResidentIff` says when that is. */
  lemma SafeIff<K, V>(capacity: nat, events: seq<Event<K, V>>)
    ensures Safe(capacity, events) <==> KeyedSafe(capacity, events)
    ensures Safe(capacity, events) ==> KeyedAfter(capacity, events).list == Run(capacity, Locked(capacity, events))
  {
    SafeFollows(capacity, events);
    if Safe(capacity, events) {
      AfterIsLocked(capacity, events);
    }
  }

  /** An unsafe run: in a cache for one entry, another thread adds a second key between a lookup and its
      move. It is safe up to the move. */
  lemma UnsafeRun<K, V>(a: K, b: K, v: V)
    requires a != b
    ensures var before := [LockedAdd(a, v), LookUp(0, a), LockedAdd(b, v)];
            Safe(1, before) && !Safe(1, before + [LockedMove(0)])
  {
    var one, two := [LockedAdd(a, v)], [LockedAdd(a, v), LookUp(0, a)];
    var before := [LockedAdd(a, v), LookUp(0, a), LockedAdd(b, v)];
    var all := before + [LockedMove(0)];
    assert one[..0] == [] && two[..1] == one && before[..2] == two && all[..3] == before;
    SafeIff(1, before);
    SafeIff(1, all);
    assert KeyedSafe<K, V>(1, []) && KeyedSafe(1, one) && KeyedSafe(1, two) && KeyedSafe(1, before);
    var k1, k2 := Keyed([Item(a, v)], map[]), Keyed([Item(a, v)], map[0 := a]);
    hide KeyedNext, Safe;
    KeyedSteps(a, b, v);
    assert KeyedAfter<K, V>(1, []) == Keyed([], map[]);
    assert KeyedAfter(1, one) == k1;
    assert KeyedAfter(1, two) == k2;
    assert KeyedAfter(1, before) == Keyed([Item(b, v)], map[]);
  }

  lemma KeyedSteps<K, V>(a: K, b: K, v: V)
    requires a != b
    ensures var k1, k2 := Keyed([Item(a, v)], map[]), Keyed([Item(a, v)], map[0 := a]);
            && KeyedNext(Keyed([], map[]), 1, LockedAdd(a, v)) == k1
            && KeyedNext(k1, 1, LookUp(0, a)) == k2
            && KeyedNext(k2, 1, LockedAdd(b, v)) == Keyed([Item(b, v)], map[])
  {
    assert Has([Item(a, v)], a) by { assert [Item(a, v)][0].key == a; }
    assert Without([Item(a, v)], b) == [Item(a, v)];
  }
}
