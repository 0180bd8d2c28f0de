/**
 `invert_dictionary`: turns a dict of lists inside out. Every key of the input
 is appended to the output list of every value it lists, in the order the
 input is iterated, and nothing is de-duplicated.
 */
module Inversion {
  import opened OrderedDicts

  /** `x` repeated `n` times. */
  function Repeat<T>(x: T, n: nat): seq<T> {
    if n == 0 then [] else Repeat(x, n - 1) + [x]
  }

  /** All the lists of a dict, concatenated in iteration order. */
  function Values<K, V>(d: ListDict<K, V>): seq<V> {
    if d == [] then [] else Values(d[..|d| - 1]) + d[|d| - 1].1
  }

  /** `seen`, followed by every element of `xs` not seen before, placed at its
      first occurrence. */
  function FirstSeen<T(==)>(seen: seq<T>, xs: seq<T>): (r: seq<T>)
    ensures forall i :: 0 <= i < |r| ==> r[i] in seen || r[i] in xs
    ensures forall i :: 0 <= i < |seen| ==> seen[i] in r
    ensures forall i :: 0 <= i < |xs| ==> xs[i] in r
    ensures NoDup(seen) ==> NoDup(r)
    ensures |seen| <= |r|
  {
    if xs == [] then seen
    else
      var p := FirstSeen(seen, xs[..|xs| - 1]);
      var x := xs[|xs| - 1];
      if x in p then p else p + [x]
  }

  /** The position of the first occurrence of `x` in `s`. */
  function FirstIndex<T(==)>(s: seq<T>, x: T): (k: nat)
    requires x in s
    ensures k < |s| && s[k] == x
    ensures forall m :: 0 <= m < k ==> s[m] != x
  {
    if s[0] == x then 0 else 1 + FirstIndex(s[1..], x)
  }

  /** Extending a sequence at the end keeps every first occurrence. */
  lemma FirstIndexSnoc<T>(s: seq<T>, y: T, x: T)
    requires x in s
    ensures FirstIndex(s + [y], x) == FirstIndex(s, x)
  {
    var a, b := FirstIndex(s + [y], x), FirstIndex(s, x);
    assert (s + [y])[b] == x;
  }

  /** In a duplicate-free sequence, every element first occurs at its own
      position. */
  lemma FirstIndexNoDup<T>(s: seq<T>, i: nat)
    requires NoDup(s) && i < |s|
    ensures FirstIndex(s, s[i]) == i
  {
  }

  /** `FirstSeen` lists its elements in the order of their first occurrence
      in `seen + xs`. */
  lemma {:induction false} FirstSeenOrder<T>(seen: seq<T>, xs: seq<T>)
    requires NoDup(seen)
    ensures forall i, j :: 0 <= i < j < |FirstSeen(seen, xs)| ==>
              FirstIndex(seen + xs, FirstSeen(seen, xs)[i]) < FirstIndex(seen + xs, FirstSeen(seen, xs)[j])
  {
    var r := FirstSeen(seen, xs);
    if xs == [] {
      assert seen + xs == seen;
      forall i | 0 <= i < |r| {
        FirstIndexNoDup(seen, i);
      }
    } else {
      var front, x := xs[..|xs| - 1], xs[|xs| - 1];
      var p := FirstSeen(seen, front);
      var s' := seen + front;
      assert seen + xs == s' + [x];
      FirstSeenOrder(seen, front);
      forall i | 0 <= i < |p|
        ensures FirstIndex(seen + xs, p[i]) == FirstIndex(s', p[i]) < |s'|
      {
        FirstIndexSnoc(s', x, p[i]);
      }
      if x !in p {
        assert x !in s' by {
          forall k | 0 <= k < |s'|
            ensures s'[k] != x
          {
            if k < |seen| {
              assert s'[k] == seen[k];
            } else {
              assert s'[k] == front[k - |seen|];
            }
          }
        }
        assert FirstIndex(seen + xs, x) == |s'|;
      }
    }
  }

  /** Reference definition of one output list: the keys of `d` in iteration
      order, each repeated as often as its own list names `v`. */
  function Column<K, V(==)>(d: ListDict<K, V>, v: V): seq<K> {
    if d == [] then []
    else Column(d[..|d| - 1], v) + Repeat(d[|d| - 1].0, multiset(d[|d| - 1].1)[v])
  }

  /** The inner loop `for value in values: outdict[value] = outdict.get(value, []) + [key]`:
      each listing adds exactly one entry. */
  function AddKey<K, V(==)>(m: ListDict<V, K>, values: seq<V>, key: K): (r: ListDict<V, K>)
    ensures Size(r) == Size(m) + |values|
  {
    if values == [] then m
    else Append(AddKey(m, values[..|values| - 1], key), values[|values| - 1], key)
  }

  /** `invert_dictionary(indict)`: the outer loop over the items of `d`. The
      output has exactly one entry per listing in the input. */
  function InvertDictionary<K, V(==)>(d: ListDict<K, V>): (r: ListDict<V, K>)
    ensures Size(r) == |Values(d)|
  {
    if d == [] then []
    else AddKey(InvertDictionary(d[..|d| - 1]), d[|d| - 1].1, d[|d| - 1].0)
  }

  /** The inner loop appends `key` to the list of `v` once per listing of `v`. */
  lemma {:induction false} AddKeyGet<K, V>(m: ListDict<V, K>, values: seq<V>, key: K, v: V)
    ensures Get(AddKey(m, values, key), v) == Get(m, v) + Repeat(key, multiset(values)[v])
  {
    if values != [] {
      var front, last := values[..|values| - 1], values[|values| - 1];
      var n := multiset(front)[v];
      var p := AddKey(m, front, key);
      AddKeyGet(m, front, key, v);
      AppendGet(p, last, key, v);
      LastCount(values, v);
      if last == v {
        assert Repeat(key, n + 1) == Repeat(key, n) + [key];
      }
    }
  }

  /** Splitting the count of `v` into the front of a sequence and its last element. */
  lemma LastCount<T>(s: seq<T>, v: T)
    requires s != []
    ensures multiset(s)[v] == multiset(s[..|s| - 1])[v] + if s[|s| - 1] == v then 1 else 0
  {
    assert s == s[..|s| - 1] + [s[|s| - 1]];
  }

  /** The inner loop adds the newly listed values as keys, in first-seen order. */
  lemma {:induction false} AddKeyKeys<K, V>(m: ListDict<V, K>, values: seq<V>, key: K)
    ensures Keys(AddKey(m, values, key)) == FirstSeen(Keys(m), values)
  {
    if values != [] {
      AddKeyKeys(m, values[..|values| - 1], key);
    }
  }

  lemma {:induction false} AddKeyShape<K, V>(m: ListDict<V, K>, values: seq<V>, key: K)
    ensures DistinctKeys(m) ==> DistinctKeys(AddKey(m, values, key))
    ensures NonEmptyLists(m) ==> NonEmptyLists(AddKey(m, values, key))
  {
    if values != [] {
      var front := values[..|values| - 1];
      AddKeyShape(m, front, key);
      AppendShape(AddKey(m, front, key), values[|values| - 1], key);
    }
  }

  /** The output is a dict, and every one of its keys has a non-empty list. */
  lemma {:induction false} InvertShape<K, V>(d: ListDict<K, V>)
    ensures DistinctKeys(InvertDictionary(d))
    ensures NonEmptyLists(InvertDictionary(d))
  {
    if d != [] {
      InvertShape(d[..|d| - 1]);
      AddKeyShape(InvertDictionary(d[..|d| - 1]), d[|d| - 1].1, d[|d| - 1].0);
    }
  }

  lemma {:induction false} RepeatCount<T>(x: T, n: nat, y: T)
    ensures multiset(Repeat(x, n))[y] == if y == x then n else 0
  {
    if n > 0 {
      RepeatCount(x, n - 1, y);
    }
  }

  /** Each output list holds the keys listing that value, in input order. */
  lemma {:induction false} InvertColumns<K, V>(d: ListDict<K, V>, v: V)
    ensures Get(InvertDictionary(d), v) == Column(d, v)
  {
    if d != [] {
      InvertColumns(d[..|d| - 1], v);
      AddKeyGet(InvertDictionary(d[..|d| - 1]), d[|d| - 1].1, d[|d| - 1].0, v);
    }
  }

  /** The reference column counts, for key `k`, how often `k`'s list names `v`. */
  lemma {:induction false} ColumnCount<K, V>(d: ListDict<K, V>, v: V, k: K)
    requires DistinctKeys(d)
    ensures multiset(Column(d, v))[k] == multiset(Get(d, k))[v]
  {
    if d != [] {
      var p, e := d[..|d| - 1], d[|d| - 1];
      assert d == p + [e];
      var n := multiset(e.1)[v];
      assert Column(d, v) == Column(p, v) + Repeat(e.0, n);
      ColumnCount(p, v, k);
      GetSnoc(p, e, k);
      RepeatCount(e.0, n, k);
      if k in Keys(p) {
        var i :| 0 <= i < |p| && p[i].0 == k;
        assert d[i].0 == k && d[|d| - 1].0 == e.0;
      } else {
        GetFound(p, k);
      }
    }
  }

  /** Key `k` occurs in the output list of `v` exactly as often as `v` occurs
      in the input list of `k`. */
  lemma {:induction false} InvertCounts<K, V>(d: ListDict<K, V>, v: V, k: K)
    requires DistinctKeys(d)
    ensures multiset(Get(InvertDictionary(d), v))[k] == multiset(Get(d, k))[v]
  {
    InvertColumns(d, v);
    ColumnCount(d, v, k);
  }

  lemma {:induction false} FirstSeenConcat<T>(seen: seq<T>, a: seq<T>, b: seq<T>)
    ensures FirstSeen(FirstSeen(seen, a), b) == FirstSeen(seen, a + b)
  {
    if b != [] {
      var front := b[..|b| - 1];
      assert (a + b)[..|a + b| - 1] == a + front;
      FirstSeenConcat(seen, a, front);
    } else {
      assert a + b == a;
    }
  }

  /** The output keys are the listed values in first-seen order. */
  lemma {:induction false} InvertKeys<K, V>(d: ListDict<K, V>)
    ensures Keys(InvertDictionary(d)) == FirstSeen([], Values(d))
  {
    if d != [] {
      var p := d[..|d| - 1];
      InvertKeys(p);
      AddKeyKeys(InvertDictionary(p), d[|d| - 1].1, d[|d| - 1].0);
      FirstSeenConcat([], Values(p), d[|d| - 1].1);
    }
  }

  /** The output is empty exactly when no key lists any value; in particular
      an empty input gives an empty output. */
  lemma {:induction false} InvertEmpty<K, V>(d: ListDict<K, V>)
    ensures InvertDictionary(d) == [] <==> Values(d) == []
  {
    InvertKeys(d);
    var r := InvertDictionary(d);
    if Values(d) != [] {
      assert Values(d)[0] in FirstSeen([], Values(d));
    }
  }

  /** One more value of the inner loop is one more append. */
  lemma AddKeyStep<K, V>(m: ListDict<V, K>, values: seq<V>, key: K, j: nat)
    requires j < |values|
    ensures AddKey(m, values[..j + 1], key) == Append(AddKey(m, values[..j], key), values[j], key)
  {
    assert values[..j + 1][..j] == values[..j];
  }

  /** The inner loop of `invert_dictionary` as written: it appends `key` to
      the list of every value it lists, one value at a time. */
  method AddKeyLoop<K, V(==)>(outdict: ListDict<V, K>, values: seq<V>, key: K) returns (r: ListDict<V, K>)
    ensures r == AddKey(outdict, values, key)
  {
    r := outdict;
    var j := 0;
    while j < |values|
      invariant j <= |values|
      invariant r == AddKey(outdict, values[..j], key)
    {
      AddKeyStep(outdict, values, key, j);
      r := Append(r, values[j], key);
      j := j + 1;
    }
    assert values[..j] == values;
  }

  /** The nested loops of `invert_dictionary` as written, statement by
      statement; they compute the inverted dict defined above. */
  method InvertLoops<K, V(==)>(indict: ListDict<K, V>) returns (outdict: ListDict<V, K>)
    ensures forall v :: Get(outdict, v) == Column(indict, v)
    ensures DistinctKeys(outdict) && NonEmptyLists(outdict)
    ensures Keys(outdict) == FirstSeen([], Values(indict))
  {
    outdict := [];
    var i := 0;
    while i < |indict|
      invariant i <= |indict|
      invariant outdict == InvertDictionary(indict[..i])
    {
      var (key, values) := indict[i];
      outdict := AddKeyLoop(outdict, values, key);
      assert indict[..i + 1][..i] == indict[..i];
      i := i + 1;
    }
    assert indict[..i] == indict;
    forall v {
      InvertColumns(indict, v);
    }
    InvertShape(indict);
    InvertKeys(indict);
  }
}
