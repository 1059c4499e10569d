/** A JavaScript `Map<string, V>`: a dictionary that remembers the order in
    which its keys were first inserted. `set` on a present key replaces the
    value and keeps the key's position; `delete` removes the key. */
module JsMaps {
  import opened Wrappers
  import opened Seqs

  /** True when no key occurs twice in `keys`: the first is not repeated
      and the rest are distinct. */
  ghost predicate Distinct<T>(keys: seq<T>) {
    keys == [] || (keys[0] !in keys[1..] && Distinct(keys[1..]))
  }

  /** Two different positions of a distinct sequence hold different keys. */
  lemma {:induction false} DistinctApart<T>(keys: seq<T>, i: nat, j: nat)
    requires Distinct(keys) && i < j < |keys|
    ensures keys[i] != keys[j]
  {
    if i == 0 {
      assert keys[j] == keys[1..][j - 1];
    } else {
      DistinctApart(keys[1..], i - 1, j - 1);
    }
  }

  /** Conversely, a sequence whose positions all hold different keys is
      distinct. */
  lemma {:induction false} ApartDistinct<T>(keys: seq<T>)
    requires forall i, j | 0 <= i < j < |keys| :: keys[i] != keys[j]
    ensures Distinct(keys)
  {
    if keys != [] {
      var tail := keys[1..];
      forall i, j | 0 <= i < j < |tail| ensures tail[i] != tail[j] {
        assert tail[i] == keys[i + 1] && tail[j] == keys[j + 1];
      }
      ApartDistinct(tail);
      forall j | 0 <= j < |tail| ensures tail[j] != keys[0] {
        assert tail[j] == keys[j + 1];
      }
    }
  }

  /** Appending a key not yet present keeps a sequence distinct. */
  lemma {:induction false} DistinctSnoc<T>(keys: seq<T>, x: T)
    ensures Distinct(keys) && x !in keys ==> Distinct(keys + [x])
  {
    if keys == [] {
      assert [x][1..] == [];
    } else {
      assert (keys + [x])[1..] == keys[1..] + [x];
      DistinctSnoc(keys[1..], x);
    }
  }

  /** `keys` with every occurrence of `k` removed, the rest in order. */
  function Without(keys: seq<string>, k: string): (r: seq<string>)
    ensures forall x :: x in r <==> x in keys && x != k
    ensures Distinct(keys) ==> Distinct(r)
    ensures k !in keys ==> r == keys
  {
    if keys == [] then []
    else if keys[0] == k then Without(keys[1..], k)
    else
      var rest := Without(keys[1..], k);
      assert Distinct(keys) ==> keys[0] !in keys[1..];
      [keys[0]] + rest
  }

  /** The position of a present key. */
  function IndexOfKey(keys: seq<string>, k: string): (i: nat)
    requires k in keys
    ensures i < |keys| && keys[i] == k
    ensures forall j :: 0 <= j < i ==> keys[j] != k
  {
    if keys[0] == k then 0 else 1 + IndexOfKey(keys[1..], k)
  }

  datatype JsMap<V> = JsMap(keys: seq<string>, entries: map<string, V>) {

    /** The key order lists exactly the keys of the dictionary, once each. */
    ghost predicate Valid() {
      Distinct(keys) && (forall k :: k in entries <==> k in keys)
    }

    /** `map.get(k)`: the value stored under `k`, or undefined. */
    function Get(k: string): Option<V> {
      if k in entries then Some(entries[k]) else None
    }

    /** `map.set(k, v)`. */
    function Set(k: string, v: V): (r: JsMap<V>)
      ensures Valid() ==> r.Valid()
      ensures r.entries == entries[k := v]
      ensures k in entries ==> r.keys == keys
      ensures k !in entries ==> r.keys == keys + [k]
    {
      if k in entries then JsMap(keys, entries[k := v])
      else
        DistinctSnoc(keys, k);
        JsMap(keys + [k], entries[k := v])
    }

    /** `map.delete(k)`; whether `k` was present is `Get(k).Some?`. */
    function Delete(k: string): (r: JsMap<V>)
      ensures Valid() ==> r.Valid()
      ensures r.entries == entries - {k}
      ensures Valid() && k !in entries ==> r == this
    {
      JsMap(Without(keys, k), entries - {k})
    }

    /** `Array.from(map.values())`: the values in key order. */
    function Values(): (vs: seq<V>)
      requires Valid()
      ensures |vs| == |keys|
      ensures forall i :: 0 <= i < |keys| ==> vs[i] == entries[keys[i]]
    {
      seq(|keys|, i requires 0 <= i < |keys| => entries[keys[i]])
    }
  }

  function EmptyMap<V>(): (m: JsMap<V>)
    ensures m.Valid() && m.Values() == []
    ensures forall k :: m.Get(k) == None
  {
    JsMap([], map[])
  }

  /** Setting a present key replaces its value in place in the value order;
      setting a new key appends its value. */
  lemma SetValues<V>(m: JsMap<V>, k: string, v: V)
    requires m.Valid()
    ensures k in m.entries ==> m.Set(k, v).Values() == m.Values()[IndexOfKey(m.keys, k) := v]
    ensures k !in m.entries ==> m.Set(k, v).Values() == m.Values() + [v]
  {
    var r := m.Set(k, v);
    var before, after := m.Values(), r.Values();
    if k in m.entries {
      var i := IndexOfKey(m.keys, k);
      var expected := before[i := v];
      assert |after| == |expected|;
      forall j | 0 <= j < |after| ensures after[j] == expected[j] {
        if j < i { DistinctApart(m.keys, j, i); }
        if j > i { DistinctApart(m.keys, i, j); }
      }
    } else {
      var expected := before + [v];
      assert |after| == |expected|;
      forall j | 0 <= j < |after| ensures after[j] == expected[j] {
        if j < |before| { assert m.keys[j] != k; }
      }
    }
  }

  lemma {:induction false} WithoutAt(keys: seq<string>, k: string, i: nat)
    requires Distinct(keys) && i < |keys| && keys[i] == k
    ensures Without(keys, k) == keys[..i] + keys[i + 1..]
  {
    if i == 0 {
      assert k !in keys[1..];
      assert keys[..0] + keys[1..] == keys[1..];
    } else {
      assert keys[0] != k;
      var t := keys[1..];
      WithoutAt(t, k, i - 1);
      var a, b := t[..i - 1], t[i..];
      assert Without(keys, k) == [keys[0]] + (a + b);
      SlicesOfTail(keys, i);
      AppendAssoc([keys[0]], a, b);
    }
  }

  /** The pieces of `keys[1..]` around position `i - 1` are pieces of `keys`. */
  lemma SlicesOfTail<T>(keys: seq<T>, i: nat)
    requires 0 < i < |keys|
    ensures [keys[0]] + keys[1..][..i - 1] == keys[..i]
    ensures keys[1..][i..] == keys[i + 1..]
  {
    assert keys[1..][..i - 1] == keys[1..i];
  }

  /** Deleting the key at position `i` removes exactly its value from the
      value order; the other values keep their relative order. */
  lemma DeleteValues<V>(m: JsMap<V>, k: string, i: nat)
    requires m.Valid() && i < |m.keys| && m.keys[i] == k
    ensures m.Delete(k).Values() == m.Values()[..i] + m.Values()[i + 1..]
  {
    WithoutAt(m.keys, k, i);
    var r := m.Delete(k);
    var before := m.Values();
    var after := r.Values();
    var expected := before[..i] + before[i + 1..];
    forall j | 0 <= j < |after| ensures after[j] == expected[j] {
      var j' := if j < i then j else j + 1;
      assert r.keys[j] == m.keys[j'] && m.keys[j'] != k;
    }
  }
}
