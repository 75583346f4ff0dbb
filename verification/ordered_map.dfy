/** A Python dictionary as the list of its entries in insertion order: a key
    appears at most once, reading a key finds its entry, and assigning to a
    key overwrites its entry in place or appends a new one at the end. */
module OrderedMap {
  import opened Wrappers

  function Keys<K, V>(m: seq<(K, V)>): (ks: seq<K>)
    ensures |ks| == |m|
    ensures forall i :: 0 <= i < |m| ==> ks[i] == m[i].0
  {
    seq(|m|, i requires 0 <= i < |m| => m[i].0)
  }

  /** The invariant of a dictionary: no key has two entries. */
  predicate DistinctKeys<K(==), V>(m: seq<(K, V)>) {
    forall i, j :: 0 <= i < j < |m| ==> m[i].0 != m[j].0
  }

  /** `d.get(k)`: the value of the first entry for `k`, if any. */
  function Get<K(==), V>(m: seq<(K, V)>, k: K): Option<V>
    decreases |m|
  {
    if |m| == 0 then None
    else if m[0].0 == k then Some(m[0].1)
    else Get(m[1..], k)
  }

  lemma KeysCons<K, V>(x: (K, V), m: seq<(K, V)>)
    ensures Keys([x] + m) == [x.0] + Keys(m)
  {
  }

  /** A key can be read exactly when it has an entry, and what is read is
      that entry's value. */
  lemma {:induction false} GetFound<K, V>(m: seq<(K, V)>, k: K)
    ensures Get(m, k).Some? <==> k in Keys(m)
    ensures Get(m, k).Some? ==> (k, Get(m, k).value) in m
    decreases |m|
  {
    if |m| > 0 {
      if m[0].0 == k {
        assert Keys(m)[0] == k;
        assert m[0] in m;
      } else {
        GetFound(m[1..], k);
        assert Keys(m) == [m[0].0] + Keys(m[1..]);
        assert forall x :: x in m[1..] ==> x in m;
      }
    }
  }

  lemma DistinctTail<K, V>(m: seq<(K, V)>)
    requires |m| > 0 && DistinctKeys(m)
    ensures DistinctKeys(m[1..])
  {
    forall i, j | 0 <= i < j < |m[1..]| ensures m[1..][i].0 != m[1..][j].0 {
      assert m[1..][i] == m[i + 1] && m[1..][j] == m[j + 1];
    }
  }

  /** In a dictionary an entry is present exactly when reading its key gives
      its value. */
  lemma {:induction false} GetEntry<K, V>(m: seq<(K, V)>, k: K, v: V)
    requires DistinctKeys(m)
    ensures (k, v) in m <==> Get(m, k) == Some(v)
    decreases |m|
  {
    if |m| > 0 && m[0].0 != k {
      DistinctTail(m);
      GetEntry(m[1..], k, v);
      assert m == [m[0]] + m[1..];
    }
  }

  /** In a dictionary, reading the key of entry `i` gives its value. */
  lemma GetAt<K, V>(m: seq<(K, V)>, i: int)
    requires DistinctKeys(m) && 0 <= i < |m|
    ensures Get(m, m[i].0) == Some(m[i].1)
  {
    GetEntry(m, m[i].0, m[i].1);
  }

  /** `d[k] = v`: afterwards `k` reads `v` and every other key reads as
      before. */
  function Put<K(==, !new), V>(m: seq<(K, V)>, k: K, v: V): (r: seq<(K, V)>)
    ensures Get(r, k) == Some(v)
    ensures forall k' :: k' != k ==> Get(r, k') == Get(m, k')
    decreases |m|
  {
    if |m| == 0 then [(k, v)]
    else if m[0].0 == k then
      var r := [(k, v)] + m[1..];
      assert r[1..] == m[1..];
      r
    else
      var rest := Put(m[1..], k, v);
      var r := [m[0]] + rest;
      assert r[1..] == rest;
      r
  }

  /** Assigning to an existing key keeps every entry in its place;
      assigning to a new key appends it at the end. */
  lemma {:induction false} PutKeys<K(!new), V>(m: seq<(K, V)>, k: K, v: V)
    ensures k in Keys(m) ==> Keys(Put(m, k, v)) == Keys(m)
    ensures k !in Keys(m) ==> Keys(Put(m, k, v)) == Keys(m) + [k]
    decreases |m|
  {
    if |m| == 0 {
    } else if m[0].0 == k {
      var r := Put(m, k, v);
      assert r == [(k, v)] + m[1..];
      assert Keys(r) == Keys(m);
    } else {
      var rest := Put(m[1..], k, v);
      assert Put(m, k, v) == [m[0]] + rest;
      PutKeys(m[1..], k, v);
      assert m == [m[0]] + m[1..];
      KeysCons(m[0], m[1..]);
      KeysCons(m[0], rest);
    }
  }

  lemma PutDistinct<K(!new), V>(m: seq<(K, V)>, k: K, v: V)
    requires DistinctKeys(m)
    ensures DistinctKeys(Put(m, k, v))
  {
    var r := Put(m, k, v);
    PutKeys(m, k, v);
    forall i, j | 0 <= i < j < |r| ensures r[i].0 != r[j].0 {
      assert Keys(r)[i] == r[i].0 && Keys(r)[j] == r[j].0;
      if k !in Keys(m) && j == |m| {
        assert r[j].0 == k;
        assert Keys(m)[i] == r[i].0;
      } else {
        assert Keys(m)[i] == r[i].0 && Keys(m)[j] == r[j].0;
      }
    }
  }
}
