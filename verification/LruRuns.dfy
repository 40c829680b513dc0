/** Theorems about whole runs of cache operations: which keys are resident and in what order, and
    what a larger capacity changes. */
module LruRuns {
  import opened Options
  import opened Lru

  datatype Op<K, V> = AddOp(key: K, value: V) | GetOp(key: K)

  function Apply<K(==), V>(l: List<K, V>, capacity: nat, op: Op<K, V>): List<K, V> {
    match op
    case AddOp(k, v) => Add(l, capacity, k, v)
    case GetOp(k) => Touch(l, k)
  }

  /** The cache after a sequence of operations, starting empty. */
  function Run<K(==), V>(capacity: nat, ops: seq<Op<K, V>>): List<K, V> {
    if ops == [] then [] else Apply(Run(capacity, ops[..|ops| - 1]), capacity, ops[|ops| - 1])
  }

  // ---- residency is recency of use ----------------------------------------------------------------

  function Keys<K, V>(l: List<K, V>): (ks: seq<K>)
    ensures |ks| == |l| && forall i :: 0 <= i < |l| ==> ks[i] == l[i].key
  {
    if l == [] then [] else [l[0].key] + Keys(l[1..])
  }

  /** The keys used by a run, in order: every add, and every get that hits. */
  function Uses<K(==), V>(capacity: nat, ops: seq<Op<K, V>>): seq<K> {
    if ops == [] then []
    else
      var init, op := ops[..|ops| - 1], ops[|ops| - 1];
      Uses(capacity, init) + if op.AddOp? || Has(Run(capacity, init), op.key) then [op.key] else []
  }

  function Removed<K(==)>(ks: seq<K>, k: K): (r: seq<K>)
    ensures |r| <= |ks| && k !in r
  {
    if ks == [] then [] else if ks[0] == k then Removed(ks[1..], k) else [ks[0]] + Removed(ks[1..], k)
  }

  /** The distinct keys of a use history, last used first. */
  function Recency<K(==)>(uses: seq<K>): seq<K> {
    if uses == [] then []
    else [uses[|uses| - 1]] + Removed(Recency(uses[..|uses| - 1]), uses[|uses| - 1])
  }

  ghost predicate NoDuplicates<K>(ks: seq<K>) {
    ks == [] || (ks[0] !in ks[1..] && NoDuplicates(ks[1..]))
  }

  function Take<K>(ks: seq<K>, n: nat): (r: seq<K>)
    ensures r == if n < |ks| then ks[..n] else ks
  {
    if ks == [] || n == 0 then [] else [ks[0]] + Take(ks[1..], n - 1)
  }

  lemma {:induction false} RemovedMeaning<K>(ks: seq<K>, k: K)
    ensures forall x :: x in Removed(ks, k) <==> x in ks && x != k
    ensures NoDuplicates(ks) ==> NoDuplicates(Removed(ks, k))
  {
    if ks != [] {
      RemovedMeaning(ks[1..], k);
      assert ks == [ks[0]] + ks[1..];
    }
  }

  lemma {:induction false} RecencyMeaning<K>(uses: seq<K>)
    ensures NoDuplicates(Recency(uses)) && forall k :: k in Recency(uses) <==> k in uses
  {
    if uses != [] {
      var n := |uses| - 1;
      var r := Removed(Recency(uses[..n]), uses[n]);
      RecencyMeaning(uses[..n]);
      RemovedMeaning(Recency(uses[..n]), uses[n]);
      ConsMembers(uses[n], r);
      LastMember(uses);
    }
  }

  lemma ConsMembers<K>(x: K, ks: seq<K>)
    ensures forall k :: k in [x] + ks <==> k == x || k in ks
    ensures NoDuplicates([x] + ks) <==> x !in ks && NoDuplicates(ks)
  {
    assert ([x] + ks)[1..] == ks;
  }

  lemma LastMember<K>(ks: seq<K>)
    requires ks != []
    ensures forall k :: k in ks <==> k == ks[|ks| - 1] || k in ks[..|ks| - 1]
  {
    assert ks == ks[..|ks| - 1] + [ks[|ks| - 1]];
  }

  lemma {:induction false} RemovedAbsent<K>(ks: seq<K>, k: K)
    requires k !in ks
    ensures Removed(ks, k) == ks
  {
    if ks != [] {
      RemovedAbsent(ks[1..], k);
    }
  }

  lemma {:induction false} KeysWithout<K, V>(l: List<K, V>, k: K)
    ensures Keys(Without(l, k)) == Removed(Keys(l), k)
  {
    if l != [] {
      KeysWithout(l[1..], k);
      assert Keys(l)[1..] == Keys(l[1..]);
    }
  }

  lemma RemovedCons<K>(x: K, ks: seq<K>, k: K)
    ensures Removed([x] + ks, k) == if x == k then Removed(ks, k) else [x] + Removed(ks, k)
  {
    assert ([x] + ks)[1..] == ks;
  }

  lemma TakeCons<K>(x: K, ks: seq<K>, n: nat)
    requires n > 0
    ensures Take([x] + ks, n) == [x] + Take(ks, n - 1)
  {
    assert ([x] + ks)[1..] == ks;
  }

  lemma TakeRemovedFirst<K>(x: K, t: seq<K>, n: nat)
    requires n > 0 && x !in t
    ensures Take(Removed([x] + t, x), n - 1) == Removed(Take([x] + t, n), x)
  {
    hide Take, Removed;
    TakeCons(x, t, n);
    RemovedCons(x, t, x);
    RemovedCons(x, Take(t, n - 1), x);
    RemovedAbsent(t, x);
    TakeSubset(t, n - 1);
    RemovedAbsent(Take(t, n - 1), x);
  }

  lemma TakeRemovedLater<K>(x: K, t: seq<K>, k: K, n: nat)
    requires n > 1 && x != k && Take(Removed(t, k), n - 2) == Removed(Take(t, n - 1), k)
    ensures Take(Removed([x] + t, k), n - 1) == Removed(Take([x] + t, n), k)
  {
    hide Take, Removed;
    TakeCons(x, t, n);
    RemovedCons(x, t, k);
    RemovedCons(x, Take(t, n - 1), k);
    TakeCons(x, Removed(t, k), n - 1);
  }

  /** Removing a key that is among the first `n`. */
  lemma {:induction false} TakeRemovedInside<K>(ks: seq<K>, k: K, n: nat)
    requires NoDuplicates(ks) && k in Take(ks, n)
    ensures n > 0 && Take(Removed(ks, k), n - 1) == Removed(Take(ks, n), k)
  {
    assert n > 0 && ks != [];
    hide Take, Removed, NoDuplicates;
    var x, t := ks[0], ks[1..];
    assert ks == [x] + t;
    TakeCons(x, t, n);
    ConsMembers(x, t);
    if x == k {
      TakeRemovedFirst(x, t, n);
    } else {
      TakeRemovedInside(t, k, n - 1);
      TakeRemovedLater(x, t, k, n);
    }
  }

  lemma TakeSubset<K>(ks: seq<K>, n: nat)
    ensures forall k :: k in Take(ks, n) ==> k in ks
  {
  }

  /** Removing a key that is not among the first `n`. */
  lemma {:induction false} TakeRemovedOutside<K>(ks: seq<K>, k: K, n: nat)
    requires n > 0 && k !in Take(ks, n)
    ensures Take(Removed(ks, k), n - 1) == Take(ks, n - 1)
  {
    if ks != [] && n > 1 {
      var t := ks[1..];
      assert Take(ks, n) == [ks[0]] + Take(t, n - 1);
      TakeRemovedOutside(t, k, n - 1);
      assert ([ks[0]] + Removed(t, k))[1..] == Removed(t, k);
    }
  }

  lemma KeysHas<K, V>(l: List<K, V>, k: K)
    ensures Has(l, k) <==> k in Keys(l)
  {
    if Has(l, k) {
      var i :| 0 <= i < |l| && l[i].key == k;
      assert Keys(l)[i] == k;
    }
  }

  /** One use of a resident key on both sides. */
  lemma UseResident<K, V>(l: List<K, V>, ks: seq<K>, capacity: nat, k: K, v: V)
    requires NoDuplicates(ks) && Keys(l) == Take(ks, capacity) && Has(l, k)
    ensures Keys([Item(k, v)] + Without(l, k)) == Take([k] + Removed(ks, k), capacity)
  {
    hide Removed, Without, Has, NoDuplicates;
    KeysWithout(l, k);
    KeysHas(l, k);
    TakeRemovedInside(ks, k, capacity);
    assert ([k] + Removed(ks, k))[1..] == Removed(ks, k);
    assert ([Item(k, v)] + Without(l, k))[1..] == Without(l, k);
  }

  /** One use of a key that was not resident. */
  lemma UseNew<K, V>(l: List<K, V>, ks: seq<K>, capacity: nat, k: K, v: V)
    requires Keys(l) == Take(ks, capacity) && !Has(l, k)
    ensures Keys(Add(l, capacity, k, v)) == Take([k] + Removed(ks, k), capacity)
  {
    hide Removed, Without, Has, Keys, Take;
    WithoutAbsent(l, k);
    KeysHas(l, k);
    var l', r := [Item(k, v)] + l, Removed(ks, k);
    assert Keys(l') == [k] + Keys(l);
    if capacity > 0 {
      TakeRemovedOutside(ks, k, capacity);
      assert Take([k] + r, capacity) == [k] + Take(r, capacity - 1);
    }
    if |l'| > capacity {
      assert Keys(l'[..capacity]) == Keys(l')[..capacity];
    }
  }

  /** After any run the resident keys are the most recently used ones, in order of last use. */
  lemma {:induction false} ResidentsAreMostRecent<K, V>(capacity: nat, ops: seq<Op<K, V>>)
    ensures Keys(Run(capacity, ops)) == Take(Recency(Uses(capacity, ops)), capacity)
  {
    if ops != [] {
      var init, op := ops[..|ops| - 1], ops[|ops| - 1];
      var l, us := Run(capacity, init), Uses(capacity, init);
      ResidentsAreMostRecent(capacity, init);
      RecencyMeaning(us);
      if Has(l, op.key) {
        UseResident(l, Recency(us), capacity, op.key, if op.AddOp? then op.value else Lookup(l, op.key).value);
      } else if op.AddOp? {
        UseNew(l, Recency(us), capacity, op.key, op.value);
      }
      assert (us + [op.key])[..|us|] == us;
      assert us + [] == us;
    }
  }

  /** The keys used after the last use of `k`. */
  function UsedSince<K(==)>(uses: seq<K>, k: K): set<K> {
    if uses == [] || uses[|uses| - 1] == k then {}
    else UsedSince(uses[..|uses| - 1], k) + {uses[|uses| - 1]}
  }

  /** The keys ahead of `k`. */
  function Ahead<K(==)>(ks: seq<K>, k: K): set<K> {
    if ks == [] || ks[0] == k then {} else {ks[0]} + Ahead(ks[1..], k)
  }

  lemma {:induction false} AheadSubset<K>(ks: seq<K>, k: K)
    ensures forall x :: x in Ahead(ks, k) ==> x in ks
  {
    if ks != [] && ks[0] != k {
      AheadSubset(ks[1..], k);
    }
  }

  lemma {:induction false} AheadOfRemoved<K>(ks: seq<K>, k: K, x: K)
    requires x != k
    ensures Ahead(Removed(ks, x), k) == Ahead(ks, k) - {x}
  {
    if ks != [] && ks[0] != k {
      AheadOfRemoved(ks[1..], k, x);
      assert ([ks[0]] + Removed(ks[1..], x))[1..] == Removed(ks[1..], x);
    }
  }

  lemma {:induction false} AheadIsUsedSince<K>(uses: seq<K>, k: K)
    ensures Ahead(Recency(uses), k) == UsedSince(uses, k)
  {
    if uses != [] && uses[|uses| - 1] != k {
      var init, x := uses[..|uses| - 1], uses[|uses| - 1];
      AheadIsUsedSince(init, k);
      AheadOfRemoved(Recency(init), k, x);
      assert Recency(uses)[1..] == Removed(Recency(init), x);
    }
  }

  lemma {:induction false} TakenIffFewAhead<K>(ks: seq<K>, k: K, n: nat)
    requires NoDuplicates(ks) && k in ks
    ensures k in Take(ks, n) <==> |Ahead(ks, k)| < n
  {
    var t := ks[1..];
    assert ks == [ks[0]] + t;
    if n > 0 {
      assert Take(ks, n) == [ks[0]] + Take(t, n - 1);
      if ks[0] != k {
        TakenIffFewAhead(t, k, n - 1);
        AheadSubset(t, k);
      }
    }
  }

  /** A key is resident exactly when it has been used and fewer than `capacity` other keys have
      been used since its last use. */
  lemma ResidentIff<K, V>(capacity: nat, ops: seq<Op<K, V>>, k: K)
    ensures var us := Uses(capacity, ops);
            Has(Run(capacity, ops), k) <==> k in us && |UsedSince(us, k)| < capacity
  {
    var us := Uses(capacity, ops);
    var r := Recency(us);
    ResidentsAreMostRecent(capacity, ops);
    KeysHas(Run(capacity, ops), k);
    RecencyMeaning(us);
    if k in us {
      AheadIsUsedSince(us, k);
      TakenIffFewAhead(r, k, capacity);
    } else {
      assert forall x :: x in Take(r, capacity) ==> x in r;
    }
  }

  function LastUse<K(==)>(uses: seq<K>, k: K): int {
    if uses == [] then -1 else if uses[|uses| - 1] == k then |uses| - 1 else LastUse(uses[..|uses| - 1], k)
  }

  lemma {:induction false} UsedSinceMonotone<K>(uses: seq<K>, j: K, k: K)
    requires LastUse(uses, j) <= LastUse(uses, k)
    ensures UsedSince(uses, k) <= UsedSince(uses, j) + {k}
    ensures j in uses && j != k ==> k in UsedSince(uses, j)
  {
    if uses != [] {
      LastUseBound(uses[..|uses| - 1], j);
      LastUseBound(uses[..|uses| - 1], k);
      assert uses == uses[..|uses| - 1] + [uses[|uses| - 1]];
      if uses[|uses| - 1] != k && uses[|uses| - 1] != j {
        UsedSinceMonotone(uses[..|uses| - 1], j, k);
      }
    }
  }

  lemma {:induction false} LastUseBound<K>(uses: seq<K>, k: K)
    ensures -1 <= LastUse(uses, k) < |uses| && (LastUse(uses, k) == -1 <==> k !in uses)
  {
    if uses != [] {
      LastUseBound(uses[..|uses| - 1], k);
      assert uses == uses[..|uses| - 1] + [uses[|uses| - 1]];
    }
  }

  /** An evicted key was last used before every resident one. */
  lemma EvictedIsLeastRecent<K, V>(capacity: nat, ops: seq<Op<K, V>>, gone: K, kept: K)
    requires var l, us := Run(capacity, ops), Uses(capacity, ops);
             gone in us && !Has(l, gone) && Has(l, kept)
    ensures var us := Uses(capacity, ops); LastUse(us, gone) < LastUse(us, kept)
  {
    var us := Uses(capacity, ops);
    ResidentIff(capacity, ops, gone);
    ResidentIff(capacity, ops, kept);
    if LastUse(us, kept) <= LastUse(us, gone) {
      UsedSinceMonotone(us, kept, gone);
      SubsetCardinality(UsedSince(us, gone), UsedSince(us, kept));
    }
  }

  lemma {:induction false} UsesGrow<K, V>(capacity: nat, before: seq<Op<K, V>>, after: seq<Op<K, V>>)
    ensures Uses(capacity, before) <= Uses(capacity, before + after)
  {
    if after == [] {
      assert before + after == before;
    } else {
      var n := |after| - 1;
      UsesGrow(capacity, before, after[..n]);
      assert (before + after)[..|before + after| - 1] == before + after[..n];
    }
  }

  /** The keys other than `k` used from the `n`th use on. */
  function OthersFrom<K(==)>(uses: seq<K>, n: nat, k: K): set<K> {
    set i | n <= i < |uses| && uses[i] != k :: uses[i]
  }

  lemma {:induction false} UsedSinceInSuffix<K>(uses: seq<K>, n: nat, k: K)
    requires 0 < n <= |uses| && uses[n - 1] == k
    ensures UsedSince(uses, k) <= OthersFrom(uses, n, k)
  {
    if n < |uses| && uses[|uses| - 1] != k {
      var init := uses[..|uses| - 1];
      UsedSinceInSuffix(init, n, k);
      assert forall i :: 0 <= i < |init| ==> init[i] == uses[i];
      assert uses[|uses| - 1] in OthersFrom(uses, n, k);
    }
  }

  /** Retention: once `k` has been added or hit, it stays through any further operations that use
      fewer than `capacity` other keys. */
  lemma Retained<K, V>(capacity: nat, before: seq<Op<K, V>>, after: seq<Op<K, V>>, k: K)
    requires var n := |Uses(capacity, before)|; n > 0 && Uses(capacity, before)[n - 1] == k
    requires |OthersFrom(Uses(capacity, before + after), |Uses(capacity, before)|, k)| < capacity
    ensures Has(Run(capacity, before + after), k)
  {
    var us, n := Uses(capacity, before + after), |Uses(capacity, before)|;
    UsesGrow(capacity, before, after);
    assert us[n - 1] == k;
    UsedSinceInSuffix(us, n, k);
    SubsetCardinality(UsedSince(us, k), OthersFrom(us, n, k));
    ResidentIff(capacity, before + after, k);
  }

  lemma {:induction false} SubsetCardinality<T>(a: set<T>, b: set<T>)
    requires a <= b
    ensures |a| <= |b|
  {
    if a != {} {
      var x :| x in a;
      SubsetCardinality(a - {x}, b - {x});
    }
  }

  // ---- resident values --------------------------------------------------------------------------

  /** The value last added under `k`. */
  function LastAdded<K(==), V>(ops: seq<Op<K, V>>, k: K): Option<V> {
    if ops == [] then None
    else
      var op := ops[|ops| - 1];
      if op.AddOp? && op.key == k then Some(op.value) else LastAdded(ops[..|ops| - 1], k)
  }

  lemma {:induction false} LookupWithout<K, V>(l: List<K, V>, k: K, x: K)
    ensures Lookup(Without(l, k), x) == if x == k then None else Lookup(l, x)
  {
    if l != [] {
      LookupWithout(l[1..], k, x);
      assert ([l[0]] + Without(l[1..], k))[1..] == Without(l[1..], k);
    }
  }

  lemma {:induction false} LookupPrefix<K, V>(l: List<K, V>, n: nat, x: K)
    requires n <= |l|
    ensures Lookup(l[..n], x).Some? ==> Lookup(l[..n], x) == Lookup(l, x)
  {
    if n > 0 && l[0].key != x {
      LookupPrefix(l[1..], n - 1, x);
      assert l[..n][1..] == l[1..][..n - 1];
    }
  }

  lemma LookupFront<K, V>(l: List<K, V>, k: K, v: V, x: K)
    ensures Lookup([Item(k, v)] + Without(l, k), x) == if x == k then Some(v) else Lookup(l, x)
  {
    LookupWithout(l, k, x);
    assert ([Item(k, v)] + Without(l, k))[1..] == Without(l, k);
  }

  lemma LookupAdd<K, V>(l: List<K, V>, capacity: nat, k: K, v: V, x: K)
    ensures var r := Lookup(Add(l, capacity, k, v), x);
            r.Some? ==> r == if x == k then Some(v) else Lookup(l, x)
  {
    hide Lookup, Without, Has;
    LookupFront(l, k, v, x);
    var l' := [Item(k, v)] + Without(l, k);
    LookupPrefix(l', |l'| - 1, x);
  }

  lemma LookupTouch<K, V>(l: List<K, V>, k: K, x: K)
    ensures Lookup(Touch(l, k), x) == Lookup(l, x)
  {
    hide Lookup, Without, Has;
    if Lookup(l, k).Some? {
      LookupFront(l, k, Lookup(l, k).value, x);
    }
  }

  /** A resident key carries the value it was last given, never an older one. */
  lemma {:induction false} ResidentValueIsLastAdded<K, V>(capacity: nat, ops: seq<Op<K, V>>, k: K)
    ensures var v := Lookup(Run(capacity, ops), k); v.Some? ==> v == LastAdded(ops, k)
  {
    if ops != [] {
      var init, op := ops[..|ops| - 1], ops[|ops| - 1];
      var l := Run(capacity, init);
      ResidentValueIsLastAdded(capacity, init, k);
      match op
      case AddOp(x, v) => LookupAdd(l, capacity, x, v, k);
      case GetOp(x) => LookupTouch(l, x, k);
    }
  }

  // ---- inclusion: a larger cache holds everything a smaller one holds ------------------------------

  /** `a` is `b` with some items left out. */
  ghost predicate Sublist<K, V>(a: List<K, V>, b: List<K, V>) {
    if a == [] then true
    else if b == [] then false
    else if a[0] == b[0] then Sublist(a[1..], b[1..])
    else Sublist(a, b[1..])
  }

  lemma {:induction false} SublistTail<K, V>(a: List<K, V>, b: List<K, V>)
    requires Sublist(a, b) && a != []
    ensures Sublist(a[1..], b)
    decreases b
  {
    if a[0] == b[0] {
      if a[1..] != [] && a[1..][0] != b[0] {
      } else if a[1..] != [] {
        SublistTail(a[1..], b[1..]);
      }
    } else {
      SublistTail(a, b[1..]);
      if a[1..] != [] && a[1..][0] == b[0] {
        SublistTail(a[1..], b[1..]);
      }
    }
  }

  lemma SublistMore<K, V>(a: List<K, V>, x: Item<K, V>, b: List<K, V>)
    requires Sublist(a, b)
    ensures Sublist(a, [x] + b)
  {
    assert ([x] + b)[1..] == b;
    if a != [] && a[0] == x {
      SublistTail(a, b);
    }
  }

  lemma {:induction false} SublistWithout<K, V>(a: List<K, V>, b: List<K, V>, k: K)
    requires Sublist(a, b)
    ensures Sublist(Without(a, k), Without(b, k))
    decreases b
  {
    if a != [] {
      var wb := Without(b[1..], k);
      if a[0] == b[0] {
        SublistWithout(a[1..], b[1..], k);
        var wa := Without(a[1..], k);
        assert ([a[0]] + wa)[1..] == wa && ([a[0]] + wb)[1..] == wb;
      } else {
        SublistWithout(a, b[1..], k);
        SublistMore(Without(a, k), b[0], wb);
      }
    }
  }

  lemma {:induction false} SublistPrefix<K, V>(a: List<K, V>, b: List<K, V>)
    requires Sublist(a, b) && a != []
    ensures Sublist(a[..|a| - 1], b)
    ensures Sublist(a[..|a| - 1], b[..|b| - 1])
    decreases b
  {
    var pa, pb := a[..|a| - 1], b[..|b| - 1];
    if a[0] == b[0] {
      if |a| > 1 {
        SublistPrefix(a[1..], b[1..]);
        assert pa[1..] == a[1..][..|a[1..]| - 1] && pb[1..] == b[1..][..|b[1..]| - 1];
      }
    } else {
      SublistPrefix(a, b[1..]);
      if |a| > 1 {
        assert pb[1..] == b[1..][..|b[1..]| - 1];
      }
    }
  }

  lemma {:induction false} SublistLookup<K, V>(a: List<K, V>, b: List<K, V>, k: K)
    requires Sublist(a, b) && Distinct(b) && Has(a, k)
    ensures Has(b, k) && Lookup(a, k) == Lookup(b, k)
    decreases b
  {
    DistinctTail(b);
    assert a == [a[0]] + a[1..];
    if a[0] == b[0] {
      if a[0].key != k {
        SublistLookup(a[1..], b[1..], k);
      }
    } else {
      SublistLookup(a, b[1..], k);
    }
  }

  lemma {:induction false} WithoutDistinct<K, V>(l: List<K, V>, k: K)
    requires Distinct(l)
    ensures Distinct(Without(l, k)) && !Has(Without(l, k), k)
  {
    if l != [] {
      DistinctTail(l);
      WithoutDistinct(l[1..], k);
    }
  }

  lemma {:induction false} RunDistinct<K, V>(capacity: nat, ops: seq<Op<K, V>>)
    ensures Distinct(Run(capacity, ops)) && |Run(capacity, ops)| <= capacity
  {
    if ops != [] {
      var init, op := ops[..|ops| - 1], ops[|ops| - 1];
      RunDistinct(capacity, init);
      ApplyDistinct(Run(capacity, init), capacity, op);
    }
  }

  lemma ApplyDistinct<K, V>(l: List<K, V>, capacity: nat, op: Op<K, V>)
    requires Distinct(l) && |l| <= capacity
    ensures Distinct(Apply(l, capacity, op)) && |Apply(l, capacity, op)| <= capacity
  {
    hide Without, Lookup, Has, Distinct;
    WithoutDistinct(l, op.key);
    var w := Without(l, op.key);
    if Has(l, op.key) {
      SameLength(l, op.key);
      DistinctCons(Item(op.key, if op.AddOp? then op.value else Lookup(l, op.key).value), w);
    } else if op.AddOp? {
      DistinctCons(Item(op.key, op.value), w);
    }
  }

  lemma DistinctCons<K, V>(x: Item<K, V>, l: List<K, V>)
    requires Distinct(l) && !Has(l, x.key)
    ensures Distinct([x] + l) && (l != [] ==> Distinct(([x] + l)[..|l|]))
  {
  }

  lemma InclusionStep<K, V>(a: List<K, V>, b: List<K, V>, c1: nat, c2: nat, op: Op<K, V>)
    requires c1 <= c2 && |a| <= c1 && |b| <= c2 && Distinct(a) && Distinct(b)
    requires Sublist(a, b) && (|a| < c1 ==> a == b)
    ensures var a', b' := Apply(a, c1, op), Apply(b, c2, op);
            Sublist(a', b') && (|a'| < c1 ==> a' == b')
  {
    hide Sublist, Distinct, Without, Lookup, Has;
    var k := op.key;
    var wa, wb := Without(a, k), Without(b, k);
    SublistWithout(a, b, k);
    if Has(a, k) {
      SublistLookup(a, b, k);
      var v := if op.AddOp? then op.value else Lookup(a, k).value;
      SublistCons(Item(k, v), wa, wb);
      SameLength(a, k);
    } else {
      WithoutAbsent(a, k);
      if op.AddOp? {
        AddInclusion(a, b, c1, c2, k, op.value);
      } else if Has(b, k) {
        SublistMore(a, Item(k, Lookup(b, k).value), wb);
      }
    }
  }

  lemma SublistCons<K, V>(x: Item<K, V>, a: List<K, V>, b: List<K, V>)
    requires Sublist(a, b)
    ensures Sublist([x] + a, [x] + b)
  {
    assert ([x] + a)[1..] == a && ([x] + b)[1..] == b;
  }

  lemma SameLength<K, V>(a: List<K, V>, k: K)
    requires Distinct(a) && Has(a, k)
    ensures |Without(a, k)| == |a| - 1
  {
    var i :| 0 <= i < |a| && a[i].key == k;
    WithoutAt(a, i);
  }

  lemma AddInclusion<K, V>(a: List<K, V>, b: List<K, V>, c1: nat, c2: nat, k: K, v: V)
    requires c1 <= c2 && |a| <= c1 && |b| <= c2 && !Has(a, k)
    requires Sublist(Without(a, k), Without(b, k)) && (|a| < c1 ==> a == b)
    ensures var a', b' := Add(a, c1, k, v), Add(b, c2, k, v);
            Sublist(a', b') && (|a'| < c1 ==> a' == b')
  {
    hide Sublist, Without, Has;
    var x := Item(k, v);
    var wa, wb := Without(a, k), Without(b, k);
    WithoutAbsent(a, k);
    SublistCons(x, wa, wb);
    SublistPrefix([x] + wa, [x] + wb);
    if !Has(b, k) {
      WithoutAbsent(b, k);
    }
  }

  /** LRU inclusion: on the same operations a larger cache always holds everything a smaller one
      holds, with the same values and in the same order. */
  lemma {:induction false} Inclusion<K, V>(c1: nat, c2: nat, ops: seq<Op<K, V>>)
    requires c1 <= c2
    ensures Sublist(Run(c1, ops), Run(c2, ops))
    ensures |Run(c1, ops)| < c1 ==> Run(c1, ops) == Run(c2, ops)
  {
    if ops != [] {
      var init := ops[..|ops| - 1];
      Inclusion(c1, c2, init);
      RunDistinct(c1, init);
      RunDistinct(c2, init);
      InclusionStep(Run(c1, init), Run(c2, init), c1, c2, ops[|ops| - 1]);
    }
  }

  /** So a larger cache never turns a hit into a miss, and hits return the same value. */
  lemma LargerCacheKeepsHits<K, V>(c1: nat, c2: nat, ops: seq<Op<K, V>>, k: K)
    requires c1 <= c2 && Has(Run(c1, ops), k)
    ensures Has(Run(c2, ops), k) && Lookup(Run(c2, ops), k) == Lookup(Run(c1, ops), k)
  {
    Inclusion(c1, c2, ops);
    RunDistinct(c2, ops);
    SublistLookup(Run(c1, ops), Run(c2, ops), k);
  }
}
