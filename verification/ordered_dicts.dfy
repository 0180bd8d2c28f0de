/**
 Python's insertion-ordered `dict`, in the one shape the pairing core uses:
 every key maps to a list, and the only update is
 `d[k] = d.get(k, []) + [v]` (append to the key's list, creating the key at
 the end of the iteration order when it is new).

 A dict is represented by its `items()` in iteration order.
 */
module OrderedDicts {

  /** A dict whose values are lists, as its items in iteration order. */
  type ListDict<K, V> = seq<(K, seq<V>)>

  /** The keys of a dict, in iteration order. */
  function Keys<K, V>(m: ListDict<K, V>): (ks: seq<K>)
    ensures |ks| == |m|
    ensures forall i :: 0 <= i < |m| ==> ks[i] == m[i].0
  {
    if m == [] then [] else [m[0].0] + Keys(m[1..])
  }

  /** No element occurs twice. */
  predicate NoDup<T(==)>(s: seq<T>) {
    forall i, j :: 0 <= i < j < |s| ==> s[i] != s[j]
  }

  /** What makes an item sequence a dict: no key occurs twice. */
  predicate DistinctKeys<K(==), V>(m: ListDict<K, V>) {
    forall i, j :: 0 <= i < j < |m| ==> m[i].0 != m[j].0
  }

  /** Every key of the dict maps to a non-empty list. */
  predicate NonEmptyLists<K, V>(m: ListDict<K, V>) {
    forall i :: 0 <= i < |m| ==> |m[i].1| > 0
  }

  /** The total length of all the lists of a dict. */
  function Size<K, V>(m: ListDict<K, V>): nat {
    if m == [] then 0 else |m[0].1| + Size(m[1..])
  }

  /** `m.get(k, [])`: the list of the first item whose key is `k`, or `[]`. */
  function Get<K(==), V>(m: ListDict<K, V>, k: K): seq<V> {
    if m == [] then []
    else if m[0].0 == k then m[0].1
    else Get(m[1..], k)
  }

  /** `m[k] = m.get(k, []) + [v]`: an existing key keeps its position and its
      list grows by `v`; a new key goes to the end with the list `[v]`. */
  function Append<K(==), V>(m: ListDict<K, V>, k: K, v: V): (r: ListDict<K, V>)
    ensures Keys(r) == if k in Keys(m) then Keys(m) else Keys(m) + [k]
    ensures Size(r) == Size(m) + 1
  {
    if m == [] then [(k, [v])]
    else if m[0].0 == k then
      var r := [(k, m[0].1 + [v])] + m[1..];
      assert r[1..] == m[1..];
      r
    else
      var rest := Append(m[1..], k, v);
      var r := [m[0]] + rest;
      assert r[1..] == rest;
      assert Keys(m) == [m[0].0] + Keys(m[1..]);
      r
  }

  /** After `m[k] = m.get(k, []) + [v]`, `get(k)` has gained `v` at its end
      and every other key reads as before. */
  lemma {:induction false} AppendGet<K, V>(m: ListDict<K, V>, k: K, v: V, x: K)
    ensures Get(Append(m, k, v), x) == if x == k then Get(m, x) + [v] else Get(m, x)
  {
    if m != [] && m[0].0 != k {
      AppendGet(m[1..], k, v, x);
    }
  }

  /** Appending keeps a dict a dict... */
  lemma AppendDistinct<K, V>(m: ListDict<K, V>, k: K, v: V)
    requires DistinctKeys(m)
    ensures DistinctKeys(Append(m, k, v))
  {
    var r := Append(m, k, v);
    var ks, rs := Keys(m), Keys(r);
    forall i, j | 0 <= i < j < |r|
      ensures r[i].0 != r[j].0
    {
      assert rs[i] == r[i].0 && rs[j] == r[j].0;
      if j < |m| {
        assert rs[i] == ks[i] && rs[j] == ks[j];
      } else {
        assert rs[j] == k && k !in ks;
        assert rs[i] == ks[i];
      }
    }
  }

  /** ...and keeps every list non-empty. */
  lemma {:induction false} AppendNonEmpty<K, V>(m: ListDict<K, V>, k: K, v: V)
    requires NonEmptyLists(m)
    ensures NonEmptyLists(Append(m, k, v))
  {
    if m != [] && m[0].0 != k {
      AppendNonEmpty(m[1..], k, v);
      assert Append(m, k, v) == [m[0]] + Append(m[1..], k, v);
    }
  }

  /** Both of the above. */
  lemma {:induction false} AppendShape<K, V>(m: ListDict<K, V>, k: K, v: V)
    ensures DistinctKeys(m) ==> DistinctKeys(Append(m, k, v))
    ensures NonEmptyLists(m) ==> NonEmptyLists(Append(m, k, v))
  {
    if DistinctKeys(m) {
      AppendDistinct(m, k, v);
    }
    if NonEmptyLists(m) {
      AppendNonEmpty(m, k, v);
    }
  }

  /** In a dict, `get` returns the list stored with the key. */
  lemma {:induction false} GetAt<K, V>(m: ListDict<K, V>, i: nat)
    requires DistinctKeys(m)
    requires i < |m|
    ensures Get(m, m[i].0) == m[i].1
  {
    if i > 0 {
      GetAt(m[1..], i - 1);
    }
  }

  /** `get` finds nothing under a missing key, and otherwise returns the list
      of an item with that key. */
  lemma {:induction false} GetFound<K, V>(m: ListDict<K, V>, k: K)
    ensures k !in Keys(m) ==> Get(m, k) == []
    ensures Get(m, k) == [] || exists i :: 0 <= i < |m| && m[i].0 == k && Get(m, k) == m[i].1
  {
    if m != [] && m[0].0 != k {
      GetFound(m[1..], k);
      assert Keys(m) == [m[0].0] + Keys(m[1..]);
      if Get(m, k) != [] {
        var i :| 0 <= i < |m[1..]| && m[1..][i].0 == k && Get(m, k) == m[1..][i].1;
        assert m[i + 1] == m[1..][i];
      }
    }
  }

  /** With every list non-empty, there are at least as many items as keys. */
  lemma {:induction false} KeysWithinSize<K, V>(m: ListDict<K, V>)
    ensures NonEmptyLists(m) ==> |m| <= Size(m)
  {
    if m != [] && NonEmptyLists(m) {
      assert NonEmptyLists(m[1..]) by {
        forall i | 0 <= i < |m[1..]|
          ensures |m[1..][i].1| > 0
        {
          assert m[1..][i] == m[i + 1];
        }
      }
      KeysWithinSize(m[1..]);
    }
  }

  /** Looking a key up in a sequence of items extended at the end. */
  lemma {:induction false} GetSnoc<K, V>(m: ListDict<K, V>, e: (K, seq<V>), k: K)
    ensures Get(m + [e], k) == if k in Keys(m) then Get(m, k) else if e.0 == k then e.1 else []
  {
    if m != [] {
      assert (m + [e])[1..] == m[1..] + [e];
      assert Keys(m) == [m[0].0] + Keys(m[1..]);
      GetSnoc(m[1..], e, k);
    }
  }

  /** A duplicate-free sequence holds each element at most once... */
  lemma {:induction false} NoDupCount<T>(s: seq<T>, x: T)
    requires NoDup(s)
    ensures multiset(s)[x] <= 1
  {
    if s != [] {
      assert s == [s[0]] + s[1..];
      NoDupCount(s[1..], x);
      if s[0] == x {
        assert x !in s[1..];
      }
    }
  }

  /** ...and a sequence holding each of its elements at most once is
      duplicate-free. */
  lemma CountNoDup<T>(s: seq<T>)
    requires forall i :: 0 <= i < |s| ==> multiset(s)[s[i]] <= 1
    ensures NoDup(s)
  {
    forall i, j | 0 <= i < j < |s|
      ensures s[i] != s[j]
    {
      assert s == s[..j] + s[j..];
      assert s[i] in s[..j] && s[j] in s[j..];
    }
  }

  /** The keys of a dict are duplicate-free. */
  lemma DistinctKeysNoDup<K, V>(m: ListDict<K, V>)
    requires DistinctKeys(m)
    ensures NoDup(Keys(m))
  {
  }
}
