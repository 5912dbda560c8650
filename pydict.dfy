/** Python's `dict` with string keys. Besides the key/value pairs it keeps
    the order in which keys were first inserted, which is the order in which
    `keys()` and `values()` list them. */
module PyDict {
  import opened Wrappers

  /** The key sequence without `k`, the other keys in their order. */
  function Without(keys: seq<string>, k: string): (r: seq<string>)
    ensures forall x :: x in r <==> x in keys && x != k
    decreases |keys|
  {
    if keys == [] then []
    else (if keys[0] == k then [] else [keys[0]]) + Without(keys[1..], k)
  }

  /** No key is listed twice. */
  ghost predicate Distinct(keys: seq<string>) {
    forall i, j :: 0 <= i < j < |keys| ==> keys[i] != keys[j]
  }

  /** Dropping a key from a duplicate-free listing keeps it duplicate-free
      and shortens it by exactly one when the key was listed. */
  lemma {:induction false} WithoutDistinct(keys: seq<string>, k: string)
    requires Distinct(keys)
    ensures Distinct(Without(keys, k))
    ensures |Without(keys, k)| == if k in keys then |keys| - 1 else |keys|
    decreases |keys|
  {
    if keys != [] {
      WithoutDistinct(keys[1..], k);
      var rest := Without(keys[1..], k);
      if keys[0] != k {
        assert keys[0] !in rest;
        var r := [keys[0]] + rest;
        forall i, j | 0 <= i < j < |r| ensures r[i] != r[j] {
          if i == 0 { assert r[j] in rest; }
        }
      } else {
        assert k !in keys[1..];
      }
    }
  }

  datatype Dict<V> = Dict(keys: seq<string>, entries: map<string, V>) {

    /** The insertion order lists every key exactly once. */
    ghost predicate Valid() {
      && Distinct(keys)
      && forall k :: k in entries <==> k in keys
    }

    /** `d.get(k)` */
    function Get(k: string): Option<V> {
      if k in entries then Some(entries[k]) else None
    }

    /** `d[k] = v`: `k` now maps to `v`, every other key keeps its value, and
        a new key goes to the end of the order while an existing one keeps
        its place. */
    function Set(k: string, v: V): (d: Dict<V>)
      requires Valid()
      ensures d.Valid()
      ensures d.Get(k) == Some(v)
      ensures forall j :: j != k ==> d.Get(j) == Get(j)
      ensures k in entries ==> d.keys == keys
      ensures k !in entries ==> d.keys == keys + [k]
    {
      Dict(if k in entries then keys else keys + [k], entries[k := v])
    }

    /** `d.pop(k)` for a present key: `k` is gone, every other key keeps its
        value and its place in the order. */
    function Pop(k: string): (d: Dict<V>)
      requires Valid() && k in entries
      ensures d.Valid()
      ensures d.Get(k) == None
      ensures forall j :: j != k ==> d.Get(j) == Get(j)
      ensures d.keys == Without(keys, k) && |d.keys| == |keys| - 1
    {
      WithoutDistinct(keys, k);
      Dict(Without(keys, k), entries - {k})
    }

    /** `list(d.values())`, in key order. */
    function Values(): (vs: seq<V>)
      requires Valid()
      ensures |vs| == |keys|
      ensures forall i :: 0 <= i < |keys| ==> vs[i] == entries[keys[i]]
    {
      seq(|keys|, i requires 0 <= i < |keys| => entries[keys[i]])
    }
  }

  /** `{}` */
  function Empty<V>(): (d: Dict<V>)
    ensures d.Valid() && d.keys == [] && d.entries == map[]
  {
    Dict([], map[])
  }

  /** `len(d)`: the number of entries equals the number of listed keys. */
  lemma {:induction false} LenIsKeyCount<V>(d: Dict<V>)
    requires d.Valid()
    ensures |d.entries| == |d.keys|
    decreases |d.keys|
  {
    if d.keys != [] {
      var k := d.keys[|d.keys| - 1];
      var rest := d.keys[..|d.keys| - 1];
      var smaller := Dict(rest, d.entries - {k});
      assert k !in rest;
      forall x ensures x in smaller.entries <==> x in rest {
        if x in rest { assert x != k; }
        if x in d.keys && x != k {
          var i :| 0 <= i < |d.keys| && d.keys[i] == x;
          assert i < |d.keys| - 1;
          assert x == rest[i];
        }
      }
      LenIsKeyCount(smaller);
    }
  }

  /** An empty dict has no keys listed: `not d` in Python. */
  lemma EmptyHasNoKeys<V>(d: Dict<V>)
    requires d.Valid() && d.entries == map[]
    ensures d.keys == []
  {
    LenIsKeyCount(d);
  }
}
