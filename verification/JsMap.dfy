/** JavaScript's Map: insertion-ordered; setting a key that is present keeps its place. */
module JsMaps {
  datatype JsMap<K(==,!new), V> = JsMap(keys: seq<K>, at: map<K, V>) {
    ghost predicate Valid() {
      && (forall k :: k in keys <==> k in at)
      && (forall i, j :: 0 <= i < j < |keys| ==> keys[i] != keys[j])
    }

    predicate Has(k: K) { k in at }

    function Set(k: K, v: V): (m: JsMap<K, V>)
      requires Valid()
      ensures m.Valid()
    {
      JsMap(if k in at then keys else keys + [k], at[k := v])
    }

    function Delete(k: K): (m: JsMap<K, V>)
      requires Valid()
      ensures m.Valid() && k !in m.at
      ensures m.at == at - {k}
    {
      WithoutMembers(keys, k);
      JsMap(Without(keys, k), at - {k})
    }

    /** Array.from(map.values()). */
    function Values(): (vs: seq<V>)
      requires Valid()
      ensures |vs| == |keys|
    {
      seq(|keys|, i requires 0 <= i < |keys| => at[keys[i]])
    }

    lemma SizeIsKeys()
      requires Valid()
      ensures |at| == |keys|
    {
      Distinct(keys);
      assert at.Keys == set k | k in keys;
    }
  }

  function Empty<K(!new), V>(): (m: JsMap<K, V>)
    ensures m.Valid()
  {
    JsMap([], map[])
  }

  function Without<K(==,!new)>(s: seq<K>, k: K): seq<K> {
    if s == [] then [] else (if s[0] == k then [] else [s[0]]) + Without(s[1..], k)
  }

  lemma {:induction false} WithoutHas<K(!new)>(s: seq<K>, k: K, x: K)
    ensures x in Without(s, k) <==> x in s && x != k
  {
    if s != [] {
      WithoutHas(s[1..], k, x);
      assert x in s <==> x == s[0] || x in s[1..];
    }
  }

  lemma {:induction false} WithoutMembers<K(!new)>(s: seq<K>, k: K)
    ensures forall x :: x in Without(s, k) <==> x in s && x != k
    ensures (forall i, j :: 0 <= i < j < |s| ==> s[i] != s[j]) ==>
              forall i, j :: 0 <= i < j < |Without(s, k)| ==> Without(s, k)[i] != Without(s, k)[j]
  {
    forall x ensures x in Without(s, k) <==> x in s && x != k { WithoutHas(s, k, x); }
    if s != [] && forall i, j :: 0 <= i < j < |s| ==> s[i] != s[j] {
      WithoutMembers(s[1..], k);
      WithoutHas(s[1..], k, s[0]);
      assert s[0] !in s[1..];
    }
  }

  lemma {:induction false} Distinct<K(!new)>(s: seq<K>)
    requires forall i, j :: 0 <= i < j < |s| ==> s[i] != s[j]
    ensures |set k | k in s| == |s|
  {
    if s != [] {
      Distinct(s[1..]);
      assert (set k | k in s) == {s[0]} + set k | k in s[1..];
    }
  }
}
