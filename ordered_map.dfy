/**
 * A JavaScript `Map` keyed by strings. Besides the key-value entries it keeps
 * the order in which keys were first inserted, because iteration
 * (`map.values()`) visits entries in that order: setting an existing key
 * keeps its position, deleting a key removes it from the order.
 */
module JsMap {
  import opened Game

  datatype OMap<V> = OMap(keys: seq<string>, entries: map<string, V>) {

    /** The insertion order lists every key of the map exactly once. */
    ghost predicate Valid()
    {
      (forall i, j :: 0 <= i < j < |keys| ==> keys[i] != keys[j]) &&
      (forall k :: k in entries <==> k in keys)
    }

    /** `map.get(k)` */
    function Get(k: string): (r: Option<V>)
      ensures r.Some? <==> k in entries
      ensures r.Some? ==> r.value == entries[k]
    {
      if k in entries then Some(entries[k]) else None
    }

    /** `map.set(k, v)`: an upsert that keeps the position of an existing key. */
    function Set(k: string, v: V): (r: OMap<V>)
      requires Valid()
      ensures r.Valid()
      ensures r.Get(k) == Some(v)
      ensures forall k' :: k' != k ==> r.Get(k') == Get(k')
      ensures k in entries ==> r.keys == keys
      ensures k !in entries ==> r.keys == keys + [k]
    {
      if k in entries then OMap(keys, entries[k := v])
      else OMap(keys + [k], entries[k := v])
    }

    /** `map.delete(k)`: the key disappears, the other keys keep their order. */
    function Delete(k: string): (r: OMap<V>)
      requires Valid()
      ensures r.Valid()
      ensures r.Get(k) == None
      ensures forall k' :: k' != k ==> r.Get(k') == Get(k')
      ensures r.keys == RemoveKey(keys, k)
    {
      RemoveKeyDistinct(keys, k);
      OMap(RemoveKey(keys, k), entries - {k})
    }

    /** `Array.from(map.values())`: the values in insertion order. */
    function Values(): (vs: seq<V>)
      requires Valid()
      ensures |vs| == |keys|
      ensures forall i :: 0 <= i < |keys| ==> vs[i] == entries[keys[i]]
    {
      seq(|keys|, i requires 0 <= i < |keys| => entries[keys[i]])
    }
  }

  /** The map with no entries. */
  function Empty<V>(): (r: OMap<V>)
    ensures r.Valid() && r.keys == []
    ensures forall k :: r.Get(k) == None
  {
    OMap([], map[])
  }

  /** The key order with every occurrence of `k` filtered out. */
  function RemoveKey(ks: seq<string>, k: string): (r: seq<string>)
    ensures forall x :: x in r <==> x in ks && x != k
    ensures |r| <= |ks|
  {
    if ks == [] then []
    else if ks[0] == k then RemoveKey(ks[1..], k)
    else [ks[0]] + RemoveKey(ks[1..], k)
  }

  /** Filtering out a key keeps the other keys distinct. */
  lemma {:induction false} RemoveKeyDistinct(ks: seq<string>, k: string)
    requires forall i, j :: 0 <= i < j < |ks| ==> ks[i] != ks[j]
    ensures forall i, j :: 0 <= i < j < |RemoveKey(ks, k)| ==> RemoveKey(ks, k)[i] != RemoveKey(ks, k)[j]
  {
    if ks != [] {
      RemoveKeyDistinct(ks[1..], k);
      var rest := RemoveKey(ks[1..], k);
      assert ks[0] !in ks[1..];
      if ks[0] != k {
        var r := [ks[0]] + rest;
        forall i, j | 0 <= i < j < |r| ensures r[i] != r[j] {
          if i == 0 {
            assert r[j] in rest;
          } else {
            assert r[i] == rest[i - 1] && r[j] == rest[j - 1];
          }
        }
      }
    }
  }

  /** Filtering out a key distributes over concatenation, so the other keys keep their relative order. */
  lemma {:induction false} RemoveKeyAppend(a: seq<string>, b: seq<string>, k: string)
    ensures RemoveKey(a + b, k) == RemoveKey(a, k) + RemoveKey(b, k)
  {
    if a == [] {
      assert a + b == b;
    } else {
      assert (a + b)[0] == a[0] && (a + b)[1..] == a[1..] + b;
      RemoveKeyAppend(a[1..], b, k);
    }
  }

  /** Filtering out a key that is absent changes nothing. */
  lemma {:induction false} RemoveAbsentKey(ks: seq<string>, k: string)
    requires k !in ks
    ensures RemoveKey(ks, k) == ks
  {
    if ks != [] {
      assert ks[0] != k;
      RemoveAbsentKey(ks[1..], k);
      assert [ks[0]] + ks[1..] == ks;
    }
  }

  /** `map.delete(k)` twice is `map.delete(k)` once. */
  lemma DeleteIdempotent<V>(m: OMap<V>, k: string)
    requires m.Valid()
    ensures m.Delete(k).Delete(k) == m.Delete(k)
  {
    RemoveAbsentKey(RemoveKey(m.keys, k), k);
    assert m.entries - {k} - {k} == m.entries - {k};
  }

  /** Setting a key that is already present leaves the iteration order alone. */
  lemma SetExistingKeepsOrder<V>(m: OMap<V>, k: string, v: V)
    requires m.Valid() && m.Get(k).Some?
    ensures m.Set(k, v).keys == m.keys
    ensures forall i :: 0 <= i < |m.keys| && m.keys[i] != k ==> m.Set(k, v).Values()[i] == m.Values()[i]
  {
  }
}
