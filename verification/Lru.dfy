/** Least-recently-used replacement on a plain list, most recently used item first. */
module Lru {
  import opened Options

  datatype Item<K, V> = Item(key: K, value: V)

  type List<K, V> = seq<Item<K, V>>

  predicate Has<K(==), V>(l: List<K, V>, k: K) {
    exists i :: 0 <= i < |l| && l[i].key == k
  }

  ghost predicate Distinct<K, V>(l: List<K, V>) {
    forall i, j :: 0 <= i < j < |l| ==> l[i].key != l[j].key
  }

  function Lookup<K(==), V>(l: List<K, V>, k: K): (r: Option<V>)
    ensures r.Some? <==> Has(l, k)
  {
    if l == [] then None
    else if l[0].key == k then Some(l[0].value)
    else
      assert forall i :: 1 <= i < |l| ==> l[i] == l[1..][i - 1];
      Lookup(l[1..], k)
  }

  function Without<K(==), V>(l: List<K, V>, k: K): (r: List<K, V>)
    ensures |r| <= |l|
    ensures forall i :: 0 <= i < |r| ==> r[i] in l && r[i].key != k
  {
    if l == [] then []
    else if l[0].key == k then Without(l[1..], k)
    else [l[0]] + Without(l[1..], k)
  }

  /** `add_response`: a new or overwritten key becomes the most recent one; a new key that
      exceeds the capacity drops the last item. */
  function Add<K(==), V>(l: List<K, V>, capacity: nat, k: K, v: V): List<K, V> {
    var l' := [Item(k, v)] + Without(l, k);
    if !Has(l, k) && |l'| > capacity then l'[..|l'| - 1] else l'
  }

  /** `get_response`: a found key becomes the most recent one. */
  function Touch<K(==), V>(l: List<K, V>, k: K): List<K, V> {
    match Lookup(l, k)
    case None => l
    case Some(v) => [Item(k, v)] + Without(l, k)
  }

  /** Overwriting the value of a key without moving it. */
  function Overwrite<K(==), V>(l: List<K, V>, k: K, v: V): (r: List<K, V>)
    ensures |r| == |l| && forall i :: 0 <= i < |l| ==> r[i] == if l[i].key == k then Item(k, v) else l[i]
  {
    if l == [] then []
    else [if l[0].key == k then Item(k, v) else l[0]] + Overwrite(l[1..], k, v)
  }

  lemma {:induction false} WithoutAbsent<K, V>(l: List<K, V>, k: K)
    requires !Has(l, k)
    ensures Without(l, k) == l
  {
    if l != [] {
      assert l[0].key != k;
      assert forall i :: 0 <= i < |l[1..]| ==> l[1..][i] == l[i + 1];
      WithoutAbsent(l[1..], k);
    }
  }

  /** `s` without its element `i`. */
  function Cut<T>(s: seq<T>, i: nat): seq<T>
    requires i < |s|
  {
    s[..i] + s[i + 1..]
  }

  lemma CutFirst<T>(s: seq<T>)
    requires s != []
    ensures Cut(s, 0) == s[1..]
  {
  }

  lemma CutLater<T>(s: seq<T>, i: nat)
    requires 0 < i < |s|
    ensures Cut(s, i) == [s[0]] + Cut(s[1..], i - 1)
  {
    assert s[..i] == [s[0]] + s[1..][..i - 1];
    assert s[i + 1..] == s[1..][i..];
  }

  lemma DistinctTail<K, V>(l: List<K, V>)
    requires Distinct(l) && l != []
    ensures Distinct(l[1..]) && !Has(l[1..], l[0].key)
    ensures forall j :: 1 <= j < |l| ==> l[j].key != l[0].key
  {
    assert forall j :: 0 <= j < |l[1..]| ==> l[1..][j] == l[j + 1];
  }

  /** In a list with distinct keys, removing a key is cutting out its one item. */
  lemma {:induction false} WithoutAt<K, V>(l: List<K, V>, i: nat)
    requires Distinct(l) && i < |l|
    ensures Without(l, l[i].key) == Cut(l, i)
    ensures Lookup(l, l[i].key) == Some(l[i].value)
  {
    hide Distinct, Has, Cut;
    var t := l[1..];
    DistinctTail(l);
    if i == 0 {
      CutFirst(l);
      WithoutAbsent(t, l[0].key);
    } else {
      assert t[i - 1] == l[i];
      WithoutAt(t, i - 1);
      CutLater(l, i);
    }
  }

  lemma OverwriteAt<K, V>(l: List<K, V>, i: nat, v: V)
    requires Distinct(l) && i < |l|
    ensures Overwrite(l, l[i].key, v) == l[i := Item(l[i].key, v)]
  {
  }
}
