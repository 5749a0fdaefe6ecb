/** A dictionary filled in order: last value wins, keys keep the place of their first use. */
module Dictionaries {

  /** The k-th key is not used again. */
  ghost predicate LastUse<K(!new)>(keys: seq<K>, k: nat)
  {
    k < |keys| && forall j :: k < j < |keys| ==> keys[j] != keys[k]
  }

  /** The k-th key was not used before. */
  ghost predicate FirstUse<K(!new)>(keys: seq<K>, k: nat)
  {
    k < |keys| && forall j :: 0 <= j < k ==> keys[j] != keys[k]
  }

  ghost predicate LastValue<K(!new), V>(keys: seq<K>, values: seq<V>, t: K, v: V)
    requires |keys| == |values|
  {
    exists k: nat :: LastUse(keys, k) && keys[k] == t && values[k] == v
  }

  /** `order` lists the keys by first use, at the positions `firsts`. */
  ghost predicate ByFirstUse<K(!new)>(keys: seq<K>, order: seq<K>, firsts: seq<nat>)
  {
    && |firsts| == |order|
    && (forall i, j :: 0 <= i < j < |firsts| ==> firsts[i] < firsts[j])
    && (forall i :: 0 <= i < |firsts| ==> FirstUse(keys, firsts[i]) && keys[firsts[i]] == order[i])
  }

  ghost predicate Filled<K(!new), V>(keys: seq<K>, values: seq<V>, order: seq<K>, m: map<K, V>)
  {
    && |keys| == |values|
    && (forall t :: t in m <==> t in order)
    && LastValues(keys, values, m) && (forall k :: 0 <= k < |keys| ==> keys[k] in m)
    && (exists firsts: seq<nat> :: ByFirstUse(keys, order, firsts))
  }

  ghost predicate LastValues<K(!new), V>(keys: seq<K>, values: seq<V>, m: map<K, V>)
    requires |keys| == |values|
  {
    forall t :: t in m ==> LastValue(keys, values, t, m[t])
  }

  lemma LastValueNext<K(!new), V>(keys: seq<K>, values: seq<V>, t: K, v: V, u: K, w: V)
    requires |keys| == |values|
    requires if u == t then w == v else LastValue(keys, values, u, w)
    ensures LastValue(keys + [t], values + [v], u, w)
  {
    if u == t {
      assert LastUse(keys + [t], |keys|);
    } else {
      var k: nat :| LastUse(keys, k) && keys[k] == u && values[k] == w;
      assert LastUse(keys + [t], k);
    }
  }

  lemma FirstUseNext<K(!new)>(keys: seq<K>, order: seq<K>, firsts: seq<nat>, t: K)
    requires ByFirstUse(keys, order, firsts)
    ensures ByFirstUse(keys + [t], order, firsts)
    ensures (forall k :: 0 <= k < |keys| ==> keys[k] != t) ==>
      ByFirstUse(keys + [t], order + [t], firsts + [|keys|])
  {
    forall i | 0 <= i < |firsts|
      ensures FirstUse(keys + [t], firsts[i]) && (keys + [t])[firsts[i]] == order[i]
    {
      assert FirstUse(keys, firsts[i]);
    }
    if forall k :: 0 <= k < |keys| ==> keys[k] != t {
      assert FirstUse(keys + [t], |keys|);
    }
  }

  lemma LastValuesNext<K(!new), V>(keys: seq<K>, values: seq<V>, m: map<K, V>, t: K, v: V)
    requires |keys| == |values| && LastValues(keys, values, m)
    ensures LastValues(keys + [t], values + [v], m[t := v])
  {
    var now := m[t := v];
    forall u | u in now ensures LastValue(keys + [t], values + [v], u, now[u]) {
      LastValueNext(keys, values, t, v, u, now[u]);
    }
  }

  /** A key used before keeps its place and takes the new value. */
  lemma FillAgain<K(!new), V>(keys: seq<K>, values: seq<V>, order: seq<K>, m: map<K, V>, t: K, v: V)
    requires Filled(keys, values, order, m) && t in m
    ensures Filled(keys + [t], values + [v], order, m[t := v])
  {
    LastValuesNext(keys, values, m, t, v);
    var firsts: seq<nat> :| ByFirstUse(keys, order, firsts);
    FirstUseNext(keys, order, firsts, t);
  }

  /** A new key goes last. */
  lemma FillFresh<K(!new), V>(keys: seq<K>, values: seq<V>, order: seq<K>, m: map<K, V>, t: K, v: V)
    requires Filled(keys, values, order, m) && t !in m
    ensures Filled(keys + [t], values + [v], order + [t], m[t := v])
  {
    LastValuesNext(keys, values, m, t, v);
    var firsts: seq<nat> :| ByFirstUse(keys, order, firsts);
    forall k | 0 <= k < |keys| ensures keys[k] != t { assert keys[k] in m; }
    FirstUseNext(keys, order, firsts, t);
    assert forall u :: u in order + [t] <==> u in order || u == t;
  }

  lemma FillNext<K(!new), V>(keys: seq<K>, values: seq<V>, order: seq<K>, m: map<K, V>, t: K, v: V)
    requires Filled(keys, values, order, m)
    ensures Filled(keys + [t], values + [v], if t in m then order else order + [t], m[t := v])
  {
    if t in m {
      FillAgain(keys, values, order, m, t, v);
    } else {
      FillFresh(keys, values, order, m, t, v);
    }
  }

  lemma FillPrefix<K(!new), V>(keys: seq<K>, values: seq<V>, i: nat, order: seq<K>, m: map<K, V>)
    requires i < |keys| == |values| && Filled(keys[..i], values[..i], order, m)
    ensures Filled(keys[..i + 1], values[..i + 1], if keys[i] in m then order else order + [keys[i]],
                   m[keys[i] := values[i]])
  {
    FillNext(keys[..i], values[..i], order, m, keys[i], values[i]);
    PrefixNext(keys, i);
    PrefixNext(values, i);
  }

  lemma PrefixNext<T>(s: seq<T>, i: nat)
    requires i < |s|
    ensures s[..i + 1] == s[..i] + [s[i]]
  {
  }

  /** No key is listed twice. */
  lemma KeysDistinct<K(!new), V>(keys: seq<K>, values: seq<V>, order: seq<K>, m: map<K, V>, i: nat, j: nat)
    requires Filled(keys, values, order, m) && i < j < |order|
    ensures order[i] != order[j]
  {
    var firsts: seq<nat> :| ByFirstUse(keys, order, firsts);
    assert FirstUse(keys, firsts[j]);
  }

  /** The dictionary is determined by what filled it. */
  lemma LastValueUnique<K(!new), V>(keys: seq<K>, values: seq<V>, t: K, v: V, w: V)
    requires |keys| == |values| && LastValue(keys, values, t, v) && LastValue(keys, values, t, w)
    ensures v == w
  {
    var j: nat :| LastUse(keys, j) && keys[j] == t && values[j] == v;
    var k: nat :| LastUse(keys, k) && keys[k] == t && values[k] == w;
    assert j == k;
  }

  function Values<K(!new), V>(order: seq<K>, m: map<K, V>): (r: seq<V>)
    requires forall i :: 0 <= i < |order| ==> order[i] in m
    ensures |r| == |order|
  {
    seq(|order|, i requires 0 <= i < |order| => m[order[i]])
  }
}
